/** What holds of every run of the lifecycle machine, and so after a failure or crash at any step. */
module Theorems {
  import opened Basics
  import opened Names
  import opened Inventory
  import opened Machine

  ghost function StateAt(labels: seq<Label>, n: nat): Durable
    requires Legal(labels) && n <= |labels|
  {
    PrefixLegal(labels, n);
    Run(labels[..n])
  }

  lemma StateAtIsWellFormed(labels: seq<Label>, n: nat)
    requires Legal(labels) && n <= |labels|
    ensures WellFormed(StateAt(labels, n))
  {
    PrefixLegal(labels, n);
    ReachableIsWellFormed(labels[..n]);
  }

  lemma StepBetween(before: seq<Label>, after: seq<Label>, l: Label)
    requires Legal(after) && after == before + [l]
    ensures Legal(before) && Enabled(Run(before), l) && Run(after) == Next(Run(before), l)
  {
    Shorten(before, l);
  }

  lemma StepOfPrefix(labels: seq<Label>, n: nat, before: seq<Label>, after: seq<Label>)
    requires n < |labels| && before == labels[..n] && after == labels[..n + 1] && Legal(after)
    ensures Legal(before) && Enabled(Run(before), labels[n]) && Run(after) == Next(Run(before), labels[n])
  {
    StepBetween(before, after, labels[n]);
  }

  lemma StateStep(labels: seq<Label>, n: nat)
    requires Legal(labels) && n < |labels|
    ensures Enabled(StateAt(labels, n), labels[n]) && StateAt(labels, n + 1) == Next(StateAt(labels, n), labels[n])
  {
    PrefixLegal(labels, n + 1);
    StepOfPrefix(labels, n, labels[..n], labels[..n + 1]);
  }

  // ---- The inventory over a run ----

  /** Bundles never disappear or change serials, and a revoked manifest stays revoked. */
  lemma {:induction false} InventoryOnlyGrows(labels: seq<Label>, i: nat, j: nat)
    requires Legal(labels) && i <= j <= |labels|
    ensures InventoryGrows(StateAt(labels, i), StateAt(labels, j))
    decreases j - i
  {
    if i < j {
      InventoryOnlyGrows(labels, i, j - 1);
      StateStep(labels, j - 1);
      StateAtIsWellFormed(labels, j - 1);
      InventoryGrowsByStep(StateAt(labels, j - 1), labels[j - 1]);
    }
  }

  lemma RevokedIsAbsorbing(labels: seq<Label>, i: nat, j: nat, name: string)
    requires Legal(labels) && i <= j <= |labels|
    requires var d := StateAt(labels, i).issued; name in d && d[name].manifest.Some? && d[name].manifest.value.state == Revoked
    ensures var d := StateAt(labels, i).issued; var e := StateAt(labels, j).issued;
            name in e && e[name].manifest == d[name].manifest
  {
    InventoryOnlyGrows(labels, i, j);
  }

  /** In every reachable state a visible bundle can be listed and revoked, and its serials are those of its certificates. */
  lemma VisibleBundlesAreUsable(labels: seq<Label>, name: string)
    requires Legal(labels) && name in Run(labels).issued && Run(labels).issued[name].manifest.Some?
    ensures var d := Run(labels).issued[name]; var m := d.manifest.value;
            && m.id == name && SafeName(name) && SafeRouteSegment(name) && name[0] != '.' && !m.kind.UnknownKind?
            && (set f | f in CertFiles(m.files)) == d.certs.Keys
            && |CertFiles(m.files)| == |m.serials| && |m.serials| >= 1
            && (forall i | 0 <= i < |m.serials| :: CertFiles(m.files)[i] in d.certs && d.certs[CertFiles(m.files)[i]] == m.serials[i])
            && (forall i, j | 0 <= i < j < |m.serials| :: m.serials[i] != m.serials[j])
  {
    ReachableIsWellFormed(labels);
    AcceptedNamesAreRoutable(name);
    CertFilesOfBundle(Run(labels).issued[name].manifest.value.kind);
    DistinctCertFiles();
  }

  // ---- Serial numbers ----

  ghost predicate TakesSerialAt(labels: seq<Label>, i: nat) {
    i < |labels| && labels[i] == TakeSerial
  }

  ghost function SerialTakenAt(labels: seq<Label>, i: nat): nat
    requires Legal(labels) && TakesSerialAt(labels, i)
  {
    StateAt(labels, i).nextSerial
  }

  lemma {:induction false} CounterGrows(labels: seq<Label>, i: nat, j: nat)
    requires Legal(labels) && i <= j <= |labels|
    ensures StateAt(labels, i).nextSerial <= StateAt(labels, j).nextSerial
    decreases j - i
  {
    if i < j {
      CounterGrows(labels, i, j - 1);
      StateStep(labels, j - 1);
    }
  }

  /** Serials are never reused over a whole run, never zero, below the durable counter, and the counter never wraps. */
  lemma SerialsAreUnique(labels: seq<Label>, i: nat, j: nat)
    requires Legal(labels) && TakesSerialAt(labels, i) && TakesSerialAt(labels, j) && i < j
    ensures 1 <= SerialTakenAt(labels, i) < SerialTakenAt(labels, j) < Run(labels).nextSerial <= 0xFFFF_FFFF_FFFF_FFFF
  {
    StateStep(labels, i);
    StateAtIsWellFormed(labels, i);
    StateStep(labels, j);
    CounterGrows(labels, i + 1, j);
    CounterGrows(labels, j + 1, |labels|);
    assert labels[..|labels|] == labels;
    StateAtIsWellFormed(labels, |labels|);
  }

  // ---- CRL numbers ----

  ghost predicate ReplacesCrlAt(labels: seq<Label>, ca: CaKind, i: nat) {
    i < |labels| && labels[i].ReplaceCrl? && labels[i].ca == ca
  }

  /** How often the issuer's CRL number file was replaced. */
  ghost function Completions(labels: seq<Label>, ca: CaKind): nat {
    if labels == [] then 0
    else Completions(labels[..|labels| - 1], ca) + if labels[|labels| - 1] == ReplaceNumber(ca) then 1 else 0
  }

  lemma {:induction false} NumberCountsCompletions(labels: seq<Label>, ca: CaKind, i: nat, j: nat)
    requires Legal(labels) && i <= j <= |labels|
    ensures StateAt(labels, j).Issuer(ca).NextNumber() ==
            StateAt(labels, i).Issuer(ca).NextNumber() + Completions(labels[i..j], ca)
    decreases j - i
  {
    if i < j {
      NumberCountsCompletions(labels, ca, i, j - 1);
      StateStep(labels, j - 1);
      assert labels[i..j][..j - 1 - i] == labels[i..j - 1];
    }
  }

  ghost function CrlPublishedAt(labels: seq<Label>, ca: CaKind, i: nat): Crl
    requires Legal(labels) && ReplacesCrlAt(labels, ca, i)
  {
    StateStep(labels, i);
    StateAt(labels, i + 1).Issuer(ca).crl.value
  }

  /**
   * The number of a later CRL exceeds that of an earlier one by the number of completed CRL number updates in
   * between, so it never decreases; it repeats exactly when no update completed, against section 5.2.3 of RFC 5280.
   */
  lemma CrlNumbersCountCompletions(labels: seq<Label>, ca: CaKind, i: nat, j: nat)
    requires Legal(labels) && ReplacesCrlAt(labels, ca, i) && ReplacesCrlAt(labels, ca, j) && i < j
    ensures CrlPublishedAt(labels, ca, j).number == CrlPublishedAt(labels, ca, i).number + Completions(labels[i + 1..j], ca)
  {
    StateStep(labels, i);
    StateStep(labels, j);
    NumberCountsCompletions(labels, ca, i + 1, j);
  }

  /** The number of a published CRL is 1000 in hexadecimal plus the completed updates before it. */
  lemma CrlNumberIs(labels: seq<Label>, ca: CaKind, i: nat)
    requires Legal(labels) && ReplacesCrlAt(labels, ca, i)
    ensures CrlPublishedAt(labels, ca, i).number == 0x1000 + Completions(labels[..i], ca)
  {
    StateStep(labels, i);
    NumberCountsCompletions(labels, ca, 0, i);
    assert labels[0..i] == labels[..i] && labels[..0] == [];
  }

  lemma {:induction false} CompletionsPositive(labels: seq<Label>, ca: CaKind)
    ensures Completions(labels, ca) > 0 <==> ReplaceNumber(ca) in labels
  {
    if labels != [] {
      var n := |labels| - 1;
      CompletionsPositive(labels[..n], ca);
      assert labels == labels[..n] + [labels[n]];
    }
  }

  lemma CrlNumbersIncreaseIff(labels: seq<Label>, ca: CaKind, i: nat, j: nat)
    requires Legal(labels) && ReplacesCrlAt(labels, ca, i) && ReplacesCrlAt(labels, ca, j) && i < j
    ensures CrlPublishedAt(labels, ca, i).number <= CrlPublishedAt(labels, ca, j).number
    ensures CrlPublishedAt(labels, ca, i).number < CrlPublishedAt(labels, ca, j).number <==>
            exists k :: i < k < j && labels[k] == ReplaceNumber(ca)
  {
    CrlNumbersCountCompletions(labels, ca, i, j);
    CompletionsPositive(labels[i + 1..j], ca);
    if k :| i < k < j && labels[k] == ReplaceNumber(ca) {
      assert labels[i + 1..j][k - i - 1] == ReplaceNumber(ca);
    }
  }

  /** In every reachable state the published CRL number is not ahead of the number file. */
  lemma PublishedNumberNotAhead(labels: seq<Label>, ca: CaKind)
    requires Legal(labels) && Run(labels).Issuer(ca).crl.Some?
    ensures Run(labels).Issuer(ca).crl.value.number <= Run(labels).Issuer(ca).NextNumber()
  {
    ReachableIsWellFormed(labels);
  }

  // ---- Pairs ----

  /**
   * In every index and every CRL ever on disk, the serials of a bundle have one status: at any earlier point i
   * of the run, whether or not the bundle existed then.
   */
  lemma BundleAtomicity(labels: seq<Label>, i: nat, name: string)
    requires Legal(labels) && i <= |labels|
    requires name in Run(labels).issued && Run(labels).issued[name].manifest.Some?
    ensures var m := Run(labels).issued[name].manifest.value;
            BundleCoherent(m.serials, StateAt(labels, i).Issuer(CaOf(m.kind)))
  {
    var s, t := StateAt(labels, i), Run(labels);
    var m := t.issued[name].manifest.value;
    assert labels[..|labels|] == labels;
    StateAtIsWellFormed(labels, i);
    ReachableIsWellFormed(labels);
    InventoryOnlyGrows(labels, i, |labels|);
    if name in s.issued && s.issued[name].manifest.Some? {
      assert Listed(s.issued, name, KindOf(CaOf(m.kind)), {});
    } else {
      forall x | x in m.serials
        ensures x !in s.Issuer(CaOf(m.kind)).index
                && (s.Issuer(CaOf(m.kind)).crl.Some? ==> x !in s.Issuer(CaOf(m.kind)).crl.value.revoked)
      {
        forall other | Listed(s.issued, other, KindOf(CaOf(m.kind)), {})
          ensures x !in s.issued[other].manifest.value.serials
        {
          if x in s.issued[other].manifest.value.serials {
            OneOwner(t, other, name, x);
          }
        }
        UnlistedIsUnpublished(s, CaOf(m.kind), x);
      }
    }
  }

  /** The signing and the encryption certificate of a TLCP bundle have different serials and always the same status. */
  lemma TlcpPairAtomicity(labels: seq<Label>, i: nat, name: string)
    requires Legal(labels) && i <= |labels|
    requires name in Run(labels).issued && Run(labels).issued[name].manifest.Some?
    requires Run(labels).issued[name].manifest.value.kind == Tlcp
    ensures var d := Run(labels).issued[name]; var files := StateAt(labels, i).sm2;
            && "server-sign.crt" in d.certs && "server-enc.crt" in d.certs
            && d.certs["server-sign.crt"] != d.certs["server-enc.crt"]
            && Lookup(files.index, d.certs["server-sign.crt"]) == Lookup(files.index, d.certs["server-enc.crt"])
            && (files.crl.Some? ==>
                  (d.certs["server-sign.crt"] in files.crl.value.revoked <==> d.certs["server-enc.crt"] in files.crl.value.revoked))
  {
    BundleAtomicity(labels, i, name);
    ReachableIsWellFormed(labels);
    DistinctCertFiles();
    CertNames();
    var d := Run(labels).issued[name];
    assert d.manifest.value.serials == SerialsOf(d.certs, Tlcp);
    assert d.manifest.value.serials[0] == d.certs[SIGN_CERT] && d.manifest.value.serials[1] == d.certs[ENC_CERT];
  }

  // ---- Revocation is never under-reported ----

  /** A manifest that says revoked and that a refresh of this issuer would have to report. */
  ghost predicate RevokedBundle(s: Durable, ca: CaKind, name: string) {
    Listed(s.issued, name, KindOf(ca), {}) && s.issued[name].manifest.value.state == Revoked
  }

  /**
   * The steps that keep revocations reported: a refresh that read every revoked manifest of its issuer, and a
   * manifest turned to revoked only once both artefacts list its serials.
   */
  ghost predicate Clean(s: Durable, l: Label)
    requires Enabled(s, l)
  {
    match l
    case ReplaceCrl(ca, target, skipped) => forall name | name in skipped :: !RevokedBundle(s, ca, name)
    case ReplaceIndex(ca, target, skipped) => forall name | name in skipped :: !RevokedBundle(s, ca, name)
    case RevokeManifest(name) =>
      var m := s.issued[name].manifest.value;
      Covered(m.serials, s.Issuer(CaOf(m.kind)))
    case _ => true
  }

  lemma CleanRefreshReports(s: Durable, l: Label, name: string)
    requires WellFormed(s) && Enabled(s, l) && Clean(s, l) && (l.ReplaceCrl? || l.ReplaceIndex?)
    requires RevokedBundle(s, l.ca, name)
    ensures l.ReplaceCrl? ==> forall x | x in s.issued[name].manifest.value.serials :: x in Next(s, l).Issuer(l.ca).crl.value.revoked
    ensures l.ReplaceIndex? ==>
              forall x | x in s.issued[name].manifest.value.serials :: Lookup(Next(s, l).Issuer(l.ca).index, x) == RevokedStatus
  {
    forall x | x in s.issued[name].manifest.value.serials
      ensures x in RevokedSerials(s.issued, KindOf(l.ca), l.target, l.skipped) && x in Registered(s.issued, KindOf(l.ca), l.skipped)
    {
      RowOfBundle(s, name, l.target, l.skipped, x);
    }
  }

  lemma SkippingRefreshDrops(s: Durable, l: Label, name: string)
    requires WellFormed(s) && Enabled(s, l) && (l.ReplaceCrl? || l.ReplaceIndex?)
    requires RevokedBundle(s, l.ca, name) && name in l.skipped
    ensures !Covered(s.issued[name].manifest.value.serials, Next(s, l).Issuer(l.ca))
  {
    var x := s.issued[name].manifest.value.serials[0];
    RowOfBundle(s, name, l.target, l.skipped, x);
  }

  lemma CleanKeepsCovered(s: Durable, l: Label, name: string)
    requires WellFormed(s) && NeverUnderReported(s) && Enabled(s, l) && Clean(s, l)
    requires var d := Next(s, l).issued; name in d && d[name].manifest.Some? && d[name].manifest.value.state == Revoked
    ensures var m := Next(s, l).issued[name].manifest.value; Covered(m.serials, Next(s, l).Issuer(CaOf(m.kind)))
  {
    ManifestOrigin(s, l, name);
    if l != RevokeManifest(name) {
      ManifestKept(s, l, name);
      var m := s.issued[name].manifest.value;
      assert RevokedBundle(s, CaOf(m.kind), name);
      assert Covered(m.serials, s.Issuer(CaOf(m.kind)));
      if (l.ReplaceCrl? || l.ReplaceIndex?) && l.ca == CaOf(m.kind) {
        CleanRefreshReports(s, l, name);
      }
    }
  }

  /** From a state with every revocation reported, a step keeps them reported exactly when it is clean. */
  lemma StepReportsIffClean(s: Durable, l: Label)
    requires WellFormed(s) && NeverUnderReported(s) && Enabled(s, l)
    ensures NeverUnderReported(Next(s, l)) <==> Clean(s, l)
  {
    if Clean(s, l) {
      forall name | var d := Next(s, l).issued; name in d && d[name].manifest.Some? && d[name].manifest.value.state == Revoked
        ensures var m := Next(s, l).issued[name].manifest.value; Covered(m.serials, Next(s, l).Issuer(CaOf(m.kind)))
      {
        CleanKeepsCovered(s, l, name);
      }
    } else if l.RevokeManifest? {
      ManifestKept(s, l, l.name);
    } else {
      var name :| name in l.skipped && RevokedBundle(s, l.ca, name);
      ManifestKept(s, l, name);
      SkippingRefreshDrops(s, l, name);
    }
  }

  ghost predicate CleanRun(labels: seq<Label>)
    requires Legal(labels)
    decreases |labels|
  {
    labels == [] ||
    (var n := |labels| - 1; CleanRun(labels[..n]) && Clean(Run(labels[..n]), labels[n]))
  }

  /**
   * Over any run, crashes and failures included, revocation is never under-reported at any point exactly when every
   * step of the run was clean.
   */
  lemma {:induction false} NeverUnderReportedIffClean(labels: seq<Label>)
    requires Legal(labels)
    ensures CleanRun(labels) <==> forall i | 0 <= i <= |labels| :: NeverUnderReported(StateAt(labels, i))
  {
    assert StateAt(labels, |labels|) == Run(labels) by { assert labels[..|labels|] == labels; }
    if labels != [] {
      var n := |labels| - 1;
      var before := labels[..n];
      NeverUnderReportedIffClean(before);
      forall i | 0 <= i <= n
        ensures StateAt(labels, i) == StateAt(before, i)
      {
        assert labels[..i] == before[..i];
      }
      assert StateAt(before, n) == Run(before) by { assert before[..n] == before; }
      ReachableIsWellFormed(before);
      if NeverUnderReported(Run(before)) {
        StepReportsIffClean(Run(before), labels[n]);
      }
    } else {
      assert StateAt(labels, 0) == INITIAL;
    }
  }
}
