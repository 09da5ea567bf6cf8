/**
 * How long a serial stays on the CRL of its issuer. A revocation that stops after its CRL was published leaves its
 * manifest valid, and the next publication takes the serial off again.
 */
module Listing {
  import opened Basics
  import opened Names
  import opened Inventory
  import opened Machine
  import opened Theorems
  import opened Engine
  import opened Service
  import opened History

  ghost predicate OnCrl(s: Durable, ca: CaKind, x: nat) {
    s.Issuer(ca).crl.Some? && x in s.Issuer(ca).crl.value.revoked
  }

  ghost predicate BundleWith(s: Durable, ca: CaKind, name: string, x: nat) {
    Listed(s.issued, name, KindOf(ca), {}) && x in s.issued[name].manifest.value.serials
  }

  /** The call got as far as replacing the CRL of this issuer. */
  ghost predicate ReplacesCrl(before: seq<Label>, call: Call, ca: CaKind)
    requires Legal(before)
  {
    match call
    case IssueCall(name, kind, skipped, m, n) => CaOf(kind) == ca && n > 1
    case RevokeCall(id, skipped, n) =>
      Revocable(Run(before), id) && CaOf(Run(before).issued[id].manifest.value.kind) == ca && n > 0
  }

  /** The call is a revocation of this bundle that came to its end. */
  ghost predicate Completes(before: seq<Label>, call: Call, name: string)
    requires Legal(before)
  {
    call.RevokeCall? && call.id == name && call.n == 4 && Revocable(Run(before), name)
  }

  // ---- What one call does to manifests and CRL ----

  lemma PublicationStepCrl(s: Durable, ca: CaKind, target: string, skipped: set<string>, i: nat, other: CaKind)
    requires i < 3 && Enabled(s, Publication(ca, target, skipped)[i])
    ensures Next(s, Publication(ca, target, skipped)[i]).issued == s.issued
    ensures Next(s, Publication(ca, target, skipped)[i]).Issuer(other).crl ==
            if ca == other && i == 0 then Some(PublishedCrl(s, ca, target, skipped)) else s.Issuer(other).crl
  {
  }

  lemma {:induction false} PublicationCrl(before: seq<Label>, ca: CaKind, target: string, skipped: set<string>, n: nat, other: CaKind)
    requires n <= 3 && Legal(before + Publication(ca, target, skipped)[..n])
    ensures Legal(before) && Run(before + Publication(ca, target, skipped)[..n]).issued == Run(before).issued
    ensures Run(before + Publication(ca, target, skipped)[..n]).Issuer(other).crl ==
            if ca == other && n > 0 then Some(PublishedCrl(Run(before), ca, target, skipped)) else Run(before).Issuer(other).crl
    decreases n
  {
    var steps := Publication(ca, target, skipped);
    assert before + steps[..0] == before;
    if n > 0 {
      ShortenBy(before, steps, n - 1);
      PublicationCrl(before, ca, target, skipped, n - 1, other);
      PublicationStepCrl(Run(before + steps[..n - 1]), ca, target, skipped, n - 1, other);
    }
  }

  lemma ListedOnCrlIff(s: Durable, ca: CaKind, target: string, skipped: set<string>, name: string, x: nat)
    requires SerialsOk(s) && DirectoriesOk(s) && BundleWith(s, ca, name, x)
    ensures x in PublishedCrl(s, ca, target, skipped).revoked <==>
            name !in skipped && (name == target || RevokedBundle(s, ca, name))
  {
    RowOfBundle(s, name, target, skipped, x);
  }

  lemma RevocationEffect(before: seq<Label>, id: string, skipped: set<string>, n: nat, ca: CaKind)
    requires Legal(before) && Revocable(Run(before), id) && n <= 4
    requires var kind := Run(before).issued[id].manifest.value.kind; Legal(before + RevocationSteps(id, kind, skipped)[..n])
    ensures var s := Run(before); var m := s.issued[id].manifest.value;
            var t := Run(before + RevocationSteps(id, m.kind, skipped)[..n]);
            && t.issued == (if n == 4 then WithManifest(s, id, m.(state := Revoked)).issued else s.issued)
            && t.Issuer(ca).crl ==
               if CaOf(m.kind) == ca && n > 0 then Some(PublishedCrl(s, ca, id, skipped)) else s.Issuer(ca).crl
  {
    var kind := Run(before).issued[id].manifest.value.kind;
    if n < 4 {
      RevocationPrefix(before, id, kind, skipped, n);
      PublicationCrl(before, CaOf(kind), id, skipped, n, ca);
    } else {
      RevocationPrefix(before, id, kind, skipped, 3);
      var three := before + Publication(CaOf(kind), id, skipped)[..3];
      Shorten(three, RevokeManifest(id));
      PublicationCrl(before, CaOf(kind), id, skipped, 3, ca);
    }
  }

  lemma IssuanceStepKeepsIssuer(s: Durable, l: Label, ca: CaKind)
    requires Enabled(s, l) && IssuanceLabel(l)
    ensures Next(s, l).Issuer(ca) == s.Issuer(ca)
  {
  }

  lemma {:induction false} IssuanceKeepsIssuer(before: seq<Label>, after: seq<Label>, ca: CaKind)
    requires Legal(before) && Legal(after) && IssuanceSteps(before, after)
    ensures Run(after).Issuer(ca) == Run(before).Issuer(ca)
    decreases |after|
  {
    if |before| < |after| {
      var n := |after| - 1;
      LastIssuanceStep(before, after);
      StepBetween(after[..n], after, after[n]);
      IssuanceKeepsIssuer(before, after[..n], ca);
      IssuanceStepKeepsIssuer(Run(after[..n]), after[n], ca);
    } else {
      assert before == after;
    }
  }

  lemma RecordingEffect(built: seq<Label>, name: string, kind: BundleKind, skipped: set<string>, n: nat, ca: CaKind)
    requires n <= 4 && Legal(built + RecordingSteps(name, kind, skipped)[..n])
    ensures Legal(built)
    ensures n > 0 ==> Legal(built + [IssueManifest(name, kind)])
                      && Run(built + RecordingSteps(name, kind, skipped)[..n]).issued == Run(built + [IssueManifest(name, kind)]).issued
    ensures n == 0 ==> built + RecordingSteps(name, kind, skipped)[..n] == built
    ensures Run(built + RecordingSteps(name, kind, skipped)[..n]).Issuer(ca).crl ==
            if CaOf(kind) == ca && n > 1 then Some(PublishedCrl(Run(built + [IssueManifest(name, kind)]), ca, "", skipped))
            else Run(built).Issuer(ca).crl
  {
    if n == 0 {
      assert built + RecordingSteps(name, kind, skipped)[..0] == built;
    } else {
      var listed := built + [IssueManifest(name, kind)];
      RecordingPrefix(built, name, kind, skipped, n - 1);
      PublicationCrl(listed, CaOf(kind), "", skipped, n - 1, ca);
      Shorten(built, IssueManifest(name, kind));
      IssuanceStepKeepsIssuer(Run(built), IssueManifest(name, kind), ca);
    }
  }

  /** The run after an issuance up to its manifest. */
  ghost function ListedRun(after: seq<Label>, call: Call): seq<Label>
    requires call.IssueCall? && call.m <= |after|
  {
    if call.n == 0 then after[..call.m] else after[..call.m] + [IssueManifest(call.name, call.kind)]
  }

  /** An issuance in its two parts: up to the visible bundle, and the recording. */
  lemma IssueParts(before: seq<Label>, after: seq<Label>, call: Call)
    requires Legal(before) && Legal(after) && call.IssueCall? && Performed(before, after, call)
    ensures var built := after[..call.m];
            Legal(built) && IssuanceSteps(before, built) && call.n <= 4
            && after == built + RecordingSteps(call.name, call.kind, call.skipped)[..call.n]
  {
    PrefixLegal(after, call.m);
  }

  lemma IssueRevokesNothing(before: seq<Label>, after: seq<Label>, call: Call, ca: CaKind, name: string)
    requires Legal(before) && Legal(after) && call.IssueCall? && Performed(before, after, call)
    ensures RevokedBundle(Run(after), ca, name) <==> RevokedBundle(Run(before), ca, name)
  {
    var built := after[..call.m];
    IssueParts(before, after, call);
    IssuanceKeepsRevoked(before, built, ca, name);
    RecordingRevokesNothing(built, call.name, call.kind, call.skipped, call.n, ca, name);
  }

  lemma RecordingRevokesNothing(built: seq<Label>, name: string, kind: BundleKind, skipped: set<string>, n: nat, ca: CaKind, other: string)
    requires n <= 4 && Legal(built) && Legal(built + RecordingSteps(name, kind, skipped)[..n])
    ensures RevokedBundle(Run(built + RecordingSteps(name, kind, skipped)[..n]), ca, other) <==> RevokedBundle(Run(built), ca, other)
  {
    RecordingEffect(built, name, kind, skipped, n, ca);
    if n > 0 {
      Shorten(built, IssueManifest(name, kind));
      ReachableIsWellFormed(built);
      IssuanceStepKeepsRevoked(Run(built), IssueManifest(name, kind), ca, other);
    }
  }

  lemma IssueEffect(before: seq<Label>, after: seq<Label>, call: Call, ca: CaKind)
    requires Legal(before) && Legal(after) && call.IssueCall? && Performed(before, after, call)
    ensures Legal(ListedRun(after, call)) && Run(after).issued == Run(ListedRun(after, call)).issued
    ensures Run(after).Issuer(ca).crl ==
            if ReplacesCrl(before, call, ca) then Some(PublishedCrl(Run(ListedRun(after, call)), ca, "", call.skipped))
            else Run(before).Issuer(ca).crl
  {
    var built := after[..call.m];
    IssueParts(before, after, call);
    RecordingEffect(built, call.name, call.kind, call.skipped, call.n, ca);
    IssuanceKeepsIssuer(before, built, ca);
  }

  /** Every call continues the run. */
  lemma CallContinues(before: seq<Label>, after: seq<Label>, call: Call)
    requires Legal(before) && Performed(before, after, call)
    ensures before <= after
  {
    if call.IssueCall? {
      assert before <= after[..call.m];
    }
  }

  lemma BundleStays(before: seq<Label>, after: seq<Label>, ca: CaKind, name: string, x: nat)
    requires Legal(before) && Legal(after) && before <= after && BundleWith(Run(before), ca, name, x)
    ensures BundleWith(Run(after), ca, name, x)
  {
    InventoryOnlyGrows(after, |before|, |after|);
    assert after[..|before|] == before && after[..|after|] == after;
  }

  /** A call turns a bundle to revoked exactly when it is its completed revocation. */
  lemma CallRevokesIff(before: seq<Label>, after: seq<Label>, call: Call, ca: CaKind, name: string, x: nat)
    requires Legal(before) && Legal(after) && Performed(before, after, call) && BundleWith(Run(before), ca, name, x)
    ensures RevokedBundle(Run(after), ca, name) <==> RevokedBundle(Run(before), ca, name) || Completes(before, call, name)
  {
    if call.IssueCall? {
      IssueRevokesNothing(before, after, call, ca, name);
    } else if Revocable(Run(before), call.id) {
      RevocationEffect(before, call.id, call.skipped, call.n, ca);
    }
  }

  lemma IssueCrlIff(before: seq<Label>, after: seq<Label>, call: Call, ca: CaKind, name: string, x: nat)
    requires Legal(before) && Legal(after) && call.IssueCall? && Performed(before, after, call) && BundleWith(Run(before), ca, name, x)
    ensures OnCrl(Run(after), ca, x) <==>
            if ReplacesCrl(before, call, ca) then name !in call.skipped && RevokedBundle(Run(before), ca, name)
            else OnCrl(Run(before), ca, x)
  {
    IssueEffect(before, after, call, ca);
    IssueRevokesNothing(before, after, call, ca, name);
    if ReplacesCrl(before, call, ca) {
      var listed := ListedRun(after, call);
      CallContinues(before, after, call);
      BundleStays(before, after, ca, name, x);
      ReachableIsWellFormed(listed);
      assert BundleWith(Run(listed), ca, name, x);
      ListedOnCrlIff(Run(listed), ca, "", call.skipped, name, x);
      assert name != "";
    }
  }

  lemma CallCrlIff(before: seq<Label>, after: seq<Label>, call: Call, ca: CaKind, name: string, x: nat)
    requires Legal(before) && Legal(after) && Performed(before, after, call) && BundleWith(Run(before), ca, name, x)
    ensures OnCrl(Run(after), ca, x) <==>
            if ReplacesCrl(before, call, ca)
            then name !in call.skipped && (RevokedBundle(Run(before), ca, name) || (call.RevokeCall? && call.id == name))
            else OnCrl(Run(before), ca, x)
  {
    if call.IssueCall? {
      IssueCrlIff(before, after, call, ca, name, x);
    } else if Revocable(Run(before), call.id) {
      RevocationEffect(before, call.id, call.skipped, call.n, ca);
      ReachableIsWellFormed(before);
      ListedOnCrlIff(Run(before), ca, call.id, call.skipped, name, x);
    }
  }

  // ---- The whole history ----

  lemma HistoryStep(points: seq<seq<Label>>, calls: seq<Call>, j: nat)
    requires IsHistory(points, calls) && j < |calls|
    ensures Legal(points[j]) && Legal(points[j + 1]) && Performed(points[j], points[j + 1], calls[j])
  {
  }

  lemma {:induction false} PointsGrow(points: seq<seq<Label>>, calls: seq<Call>, k: nat, j: nat)
    requires IsHistory(points, calls) && k <= j <= |calls|
    ensures points[k] <= points[j]
    decreases j
  {
    if k < j {
      PointsGrow(points, calls, k, j - 1);
      HistoryStep(points, calls, j - 1);
      CallContinues(points[j - 1], points[j], calls[j - 1]);
    }
  }

  lemma BundleStaysInHistory(points: seq<seq<Label>>, calls: seq<Call>, k: nat, j: nat, ca: CaKind, name: string, x: nat)
    requires IsHistory(points, calls) && k <= j <= |calls| && BundleWith(Run(points[k]), ca, name, x)
    ensures BundleWith(Run(points[j]), ca, name, x)
  {
    PointsGrow(points, calls, k, j);
    BundleStays(points[k], points[j], ca, name, x);
  }

  lemma RevokedByLast(points: seq<seq<Label>>, calls: seq<Call>, j: nat, ca: CaKind, name: string, x: nat)
    requires IsHistory(points, calls) && j < |calls| && BundleWith(Run(points[j]), ca, name, x)
    ensures RevokedBundle(Run(points[j + 1]), ca, name)
            <==> RevokedBundle(Run(points[j]), ca, name) || Completes(points[j], calls[j], name)
  {
    HistoryStep(points, calls, j);
    CallRevokesIff(points[j], points[j + 1], calls[j], ca, name, x);
  }

  ghost function RevokedAt(points: seq<seq<Label>>, calls: seq<Call>, ca: CaKind, name: string): seq<bool>
    requires IsHistory(points, calls)
  {
    seq(|points|, i requires 0 <= i < |points| => RevokedBundle(Run(points[i]), ca, name))
  }

  ghost function CompletedAt(points: seq<seq<Label>>, calls: seq<Call>, name: string): seq<bool>
    requires IsHistory(points, calls)
  {
    seq(|calls|, i requires 0 <= i < |calls| => Completes(points[i], calls[i], name))
  }

  ghost predicate CompletedBetween(points: seq<seq<Label>>, calls: seq<Call>, k: nat, j: nat, name: string)
    requires IsHistory(points, calls) && k <= j <= |calls|
  {
    exists d :: k <= d < j && CompletedAt(points, calls, name)[d]
  }

  /** A value that is set by some events and never reset. */
  lemma {:induction false} LatchIff(values: seq<bool>, events: seq<bool>, k: nat, j: nat)
    requires k <= j < |values| == |events| + 1
    requires forall i | k <= i < |events| :: values[i + 1] <==> values[i] || events[i]
    ensures values[j] <==> values[k] || exists d :: k <= d < j && events[d]
    decreases j
  {
    if k < j {
      LatchIff(values, events, k, j - 1);
      assert values[j - 1 + 1] <==> values[j - 1] || events[j - 1];
    }
  }

  lemma RevokedLink(points: seq<seq<Label>>, calls: seq<Call>, k: nat, j: nat, ca: CaKind, name: string, x: nat)
    requires IsHistory(points, calls) && k <= j < |calls| && BundleWith(Run(points[k]), ca, name, x)
    ensures var revoked := RevokedAt(points, calls, ca, name);
            revoked[j + 1] <==> revoked[j] || CompletedAt(points, calls, name)[j]
  {
    BundleStaysInHistory(points, calls, k, j, ca, name, x);
    RevokedByLast(points, calls, j, ca, name, x);
  }

  lemma RevokedLinks(points: seq<seq<Label>>, calls: seq<Call>, k: nat, ca: CaKind, name: string, x: nat)
    requires IsHistory(points, calls) && k <= |calls| && BundleWith(Run(points[k]), ca, name, x)
    ensures var revoked := RevokedAt(points, calls, ca, name);
            forall j | k <= j < |calls| :: revoked[j + 1] <==> revoked[j] || CompletedAt(points, calls, name)[j]
  {
    var revoked := RevokedAt(points, calls, ca, name);
    forall j | k <= j < |calls|
      ensures revoked[j + 1] <==> revoked[j] || CompletedAt(points, calls, name)[j]
    {
      RevokedLink(points, calls, k, j, ca, name, x);
    }
  }

  /** The bundle is revoked at j if it was at k or a call in between completed its revocation. */
  lemma RevokedSince(points: seq<seq<Label>>, calls: seq<Call>, k: nat, j: nat, ca: CaKind, name: string, x: nat)
    requires IsHistory(points, calls) && k <= j <= |calls| && BundleWith(Run(points[k]), ca, name, x)
    ensures RevokedBundle(Run(points[j]), ca, name) <==>
            RevokedBundle(Run(points[k]), ca, name) || CompletedBetween(points, calls, k, j, name)
  {
    RevokedLinks(points, calls, k, ca, name, x);
    LatchIff(RevokedAt(points, calls, ca, name), CompletedAt(points, calls, name), k, j);
  }

  /** The later call does not take the serial off: it read the manifest, which says revoked or is its own target. */
  ghost predicate Retains(points: seq<seq<Label>>, calls: seq<Call>, k: nat, j: nat, ca: CaKind, name: string)
    requires IsHistory(points, calls) && k <= j < |calls|
  {
    ReplacesCrl(points[j], calls[j], ca) ==>
      && name !in calls[j].skipped
      && (RevokedBundle(Run(points[k]), ca, name) || (calls[j].RevokeCall? && calls[j].id == name)
          || CompletedBetween(points, calls, k, j, name))
  }

  ghost predicate ListedFrom(points: seq<seq<Label>>, calls: seq<Call>, k: nat, h: nat, ca: CaKind, x: nat)
    requires IsHistory(points, calls) && k <= h <= |calls|
  {
    forall j | k <= j <= h :: OnCrl(Run(points[j]), ca, x)
  }

  ghost predicate RetainedFrom(points: seq<seq<Label>>, calls: seq<Call>, k: nat, h: nat, ca: CaKind, name: string)
    requires IsHistory(points, calls) && k <= h <= |calls|
  {
    forall j | k <= j < h :: Retains(points, calls, k, j, ca, name)
  }

  lemma RetainsIff(points: seq<seq<Label>>, calls: seq<Call>, k: nat, j: nat, ca: CaKind, name: string, x: nat)
    requires IsHistory(points, calls) && k <= j < |calls|
    requires BundleWith(Run(points[k]), ca, name, x) && OnCrl(Run(points[j]), ca, x)
    ensures OnCrl(Run(points[j + 1]), ca, x) <==> Retains(points, calls, k, j, ca, name)
  {
    BundleStaysInHistory(points, calls, k, j, ca, name, x);
    RevokedSince(points, calls, k, j, ca, name, x);
    HistoryStep(points, calls, j);
    CallCrlIff(points[j], points[j + 1], calls[j], ca, name, x);
  }

  /** A chain of values of which each is inherited exactly when its link holds. */
  lemma {:induction false} ChainIff(values: seq<bool>, links: seq<bool>, k: nat, h: nat)
    requires k <= h < |values| == |links| + 1 && values[k]
    requires forall j | k <= j < |links| && values[j] :: values[j + 1] <==> links[j]
    ensures (forall j | k <= j <= h :: values[j]) <==> forall j | k <= j < h :: links[j]
    decreases h
  {
    if k < h {
      ChainIff(values, links, k, h - 1);
      if forall j | k <= j <= h - 1 :: values[j] {
        assert values[h - 1 + 1] <==> links[h - 1];
      }
    }
  }

  ghost function ListedAt(points: seq<seq<Label>>, calls: seq<Call>, ca: CaKind, x: nat): seq<bool>
    requires IsHistory(points, calls)
  {
    seq(|points|, i requires 0 <= i < |points| => OnCrl(Run(points[i]), ca, x))
  }

  ghost function RetainedAt(points: seq<seq<Label>>, calls: seq<Call>, k: nat, ca: CaKind, name: string): seq<bool>
    requires IsHistory(points, calls) && k <= |calls|
  {
    seq(|calls|, i requires 0 <= i < |calls| => i < k || Retains(points, calls, k, i, ca, name))
  }

  lemma RetainedAtAll(points: seq<seq<Label>>, calls: seq<Call>, k: nat, ca: CaKind, name: string)
    requires IsHistory(points, calls) && k <= |calls|
    ensures RetainedFrom(points, calls, k, |calls|, ca, name)
            <==> forall j | k <= j < |calls| :: RetainedAt(points, calls, k, ca, name)[j]
  {
    var retained := RetainedAt(points, calls, k, ca, name);
    forall j | k <= j < |calls|
      ensures retained[j] <==> Retains(points, calls, k, j, ca, name)
    {
    }
  }

  lemma ListedAtAll(points: seq<seq<Label>>, calls: seq<Call>, k: nat, ca: CaKind, x: nat)
    requires IsHistory(points, calls) && k <= |calls|
    ensures ListedFrom(points, calls, k, |calls|, ca, x) <==> forall j | k <= j <= |calls| :: ListedAt(points, calls, ca, x)[j]
  {
    var listed := ListedAt(points, calls, ca, x);
    forall j | k <= j <= |calls|
      ensures listed[j] <==> OnCrl(Run(points[j]), ca, x)
    {
    }
  }

  lemma ListedLinks(points: seq<seq<Label>>, calls: seq<Call>, k: nat, ca: CaKind, name: string, x: nat)
    requires IsHistory(points, calls) && k <= |calls| && BundleWith(Run(points[k]), ca, name, x)
    ensures var listed := ListedAt(points, calls, ca, x);
            forall j | k <= j < |calls| && listed[j] :: listed[j + 1] <==> RetainedAt(points, calls, k, ca, name)[j]
  {
    var listed := ListedAt(points, calls, ca, x);
    forall j | k <= j < |calls| && listed[j]
      ensures listed[j + 1] <==> RetainedAt(points, calls, k, ca, name)[j]
    {
      RetainsIff(points, calls, k, j, ca, name, x);
    }
  }

  /**
   * A serial that is on the published CRL stays on it for the rest of the history if and only if every later call that
   * replaced the CRL read the bundle's manifest and either was for this bundle itself or came after a revocation of it
   * had completed. A call replaces the CRL at most once, so these are all the CRLs that follow.
   */
  lemma SerialStaysListedIff(points: seq<seq<Label>>, calls: seq<Call>, k: nat, ca: CaKind, name: string, x: nat)
    requires IsHistory(points, calls) && k <= |calls|
    requires BundleWith(Run(points[k]), ca, name, x) && OnCrl(Run(points[k]), ca, x)
    ensures ListedFrom(points, calls, k, |calls|, ca, x) <==> RetainedFrom(points, calls, k, |calls|, ca, name)
  {
    ListedLinks(points, calls, k, ca, name, x);
    ListedAtAll(points, calls, k, ca, x);
    RetainedAtAll(points, calls, k, ca, name);
    ChainIff(ListedAt(points, calls, ca, x), RetainedAt(points, calls, k, ca, name), k, |calls|);
  }
}
