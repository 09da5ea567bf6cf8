/**
 * The certificate lifecycle as a state machine over single durable changes: one label for every rename,
 * certificate file or state file that reaches the disk. A run is a sequence of labels from the initialised
 * state. A crash, or a failure that ends an operation early, leaves a prefix of a run, and every prefix of
 * a legal run is legal; readers that take no lock see the state after some prefix.
 */
module Machine {
  import opened Basics
  import opened Names
  import opened Inventory

  datatype Label =
    | TakeSerial
    | Stage(temp: string)
    | WriteCert(temp: string, file: string, serial: nat)
    | Discard(temp: string)
    | PublishDirectory(temp: string, name: string, kind: BundleKind)
    | IssueManifest(name: string, kind: BundleKind)
    | RevokeManifest(name: string)
    | ReplaceCrl(ca: CaKind, target: string, skipped: set<string>)
    | ReplaceIndex(ca: CaKind, target: string, skipped: set<string>)
    | ReplaceNumber(ca: CaKind)

  const INITIAL: Durable :=
    var empty := IssuerFiles(map[], Some(FIRST_CRL_NUMBER), None);
    Durable(1, map[], empty, empty)

  ghost predicate UsedSerial(s: Durable, serial: nat) {
    exists d, f :: d in s.issued && f in s.issued[d].certs && s.issued[d].certs[f] == serial
  }

  ghost predicate Enabled(s: Durable, l: Label) {
    match l
    case TakeSerial => 1 <= s.nextSerial < MAX_UINT64
    case Stage(temp) => Hidden(temp) && temp !in s.issued
    case WriteCert(temp, file, serial) =>
      && Hidden(temp) && temp in s.issued && s.issued[temp].manifest.None? && file !in s.issued[temp].certs
      && 1 <= serial < s.nextSerial && !UsedSerial(s, serial)
    case Discard(temp) => Hidden(temp)
    case PublishDirectory(temp, name, kind) =>
      && Hidden(temp) && temp in s.issued && HasCertsOf(s.issued[temp].certs, kind)
      && SafeName(name) && name !in s.issued
    case IssueManifest(name, kind) =>
      && !Hidden(name) && name in s.issued && s.issued[name].manifest.None? && HasCertsOf(s.issued[name].certs, kind)
    case RevokeManifest(name) =>
      && !Hidden(name) && name in s.issued && s.issued[name].manifest.Some? && s.issued[name].manifest.value.state == Valid
    case ReplaceCrl(ca, target, skipped) => true
    case ReplaceIndex(ca, target, skipped) => true
    case ReplaceNumber(ca) => s.Issuer(ca).crl.Some? && s.Issuer(ca).crl.value.number == s.Issuer(ca).NextNumber()
  }

  ghost function PublishedCrl(s: Durable, ca: CaKind, target: string, skipped: set<string>): Crl {
    Crl(s.Issuer(ca).NextNumber(), RevokedSerials(s.issued, KindOf(ca), target, skipped))
  }

  ghost function Next(s: Durable, l: Label): Durable
    requires Enabled(s, l)
  {
    match l
    case TakeSerial => s.(nextSerial := s.nextSerial + 1)
    case Stage(temp) => s.(issued := s.issued[temp := Directory(map[], None)])
    case WriteCert(temp, file, serial) =>
      var d := s.issued[temp];
      s.(issued := s.issued[temp := d.(certs := d.certs[file := serial])])
    case Discard(temp) => s.(issued := s.issued - {temp})
    case PublishDirectory(temp, name, kind) => s.(issued := (s.issued - {temp})[name := s.issued[temp]])
    case IssueManifest(name, kind) =>
      var d := s.issued[name];
      s.(issued := s.issued[name := d.(manifest := Some(NewManifest(name, d.certs, kind)))])
    case RevokeManifest(name) =>
      var d := s.issued[name];
      s.(issued := s.issued[name := d.(manifest := Some(d.manifest.value.(state := Revoked)))])
    case ReplaceCrl(ca, target, skipped) =>
      s.WithIssuer(ca, s.Issuer(ca).(crl := Some(PublishedCrl(s, ca, target, skipped))))
    case ReplaceIndex(ca, target, skipped) =>
      s.WithIssuer(ca, s.Issuer(ca).(index := Rows(s.issued, KindOf(ca), target, skipped)))
    case ReplaceNumber(ca) =>
      s.WithIssuer(ca, s.Issuer(ca).(crlNumber := Some(s.Issuer(ca).NextNumber() + 1)))
  }

  // ---- Runs ----

  ghost predicate Legal(labels: seq<Label>)
    decreases |labels|, 0
  {
    labels == [] ||
    (var n := |labels| - 1; Legal(labels[..n]) && Enabled(Run(labels[..n]), labels[n]))
  }

  ghost function Run(labels: seq<Label>): Durable
    requires Legal(labels)
    decreases |labels|, 1
  {
    if labels == [] then INITIAL
    else var n := |labels| - 1; Next(Run(labels[..n]), labels[n])
  }

  /** Stopping a run anywhere leaves a legal run: what holds of every legal run holds after a crash at any step. */
  lemma {:induction false} PrefixLegal(labels: seq<Label>, n: nat)
    requires Legal(labels) && n <= |labels|
    ensures Legal(labels[..n])
  {
    if n < |labels| {
      PrefixLegal(labels[..|labels| - 1], n);
      assert labels[..|labels| - 1][..n] == labels[..n];
    } else {
      assert labels[..n] == labels;
    }
  }

  lemma Extend(labels: seq<Label>, l: Label)
    requires Legal(labels) && Enabled(Run(labels), l)
    ensures Legal(labels + [l]) && Run(labels + [l]) == Next(Run(labels), l)
  {
    assert (labels + [l])[..|labels|] == labels;
  }

  lemma ExtendBy(before: seq<Label>, steps: seq<Label>, n: nat)
    requires n < |steps| && Legal(before + steps[..n]) && Enabled(Run(before + steps[..n]), steps[n])
    ensures Legal(before + steps[..n + 1])
    ensures Run(before + steps[..n + 1]) == Next(Run(before + steps[..n]), steps[n])
  {
    assert before + steps[..n] + [steps[n]] == before + steps[..n + 1];
    Extend(before + steps[..n], steps[n]);
  }

  /** The converse of Extend. */
  lemma Shorten(labels: seq<Label>, l: Label)
    requires Legal(labels + [l])
    ensures Legal(labels) && Enabled(Run(labels), l) && Run(labels + [l]) == Next(Run(labels), l)
  {
    assert (labels + [l])[..|labels|] == labels;
    LastStep(labels + [l]);
  }

  lemma ShortenBy(before: seq<Label>, steps: seq<Label>, n: nat)
    requires n < |steps| && Legal(before + steps[..n + 1])
    ensures Legal(before + steps[..n]) && Enabled(Run(before + steps[..n]), steps[n])
    ensures Run(before + steps[..n + 1]) == Next(Run(before + steps[..n]), steps[n])
  {
    assert before + steps[..n] + [steps[n]] == before + steps[..n + 1];
    Shorten(before + steps[..n], steps[n]);
  }

  lemma LastStep(labels: seq<Label>)
    requires Legal(labels) && labels != []
    ensures var n := |labels| - 1;
            Legal(labels[..n]) && Enabled(Run(labels[..n]), labels[n]) && Run(labels) == Next(Run(labels[..n]), labels[n])
  {
  }

  // ---- Every step keeps the invariant ----

  /** Each certificate of t is a certificate of s, possibly in a directory of another name. */
  ghost predicate CertsMoved(s: Durable, t: Durable, from: string -> string) {
    && (forall d, f | d in t.issued && f in t.issued[d].certs ::
          from(d) in s.issued && f in s.issued[from(d)].certs && t.issued[d].certs[f] == s.issued[from(d)].certs[f])
    && (forall d, e | d in t.issued && e in t.issued && from(d) == from(e) :: d == e)
  }

  lemma MovingKeepsSerials(s: Durable, t: Durable, from: string -> string)
    requires SerialsOk(s) && s.nextSerial <= t.nextSerial && CertsMoved(s, t, from)
    ensures SerialsOk(t)
  {
  }

  lemma WriteCertKeepsSerials(s: Durable, l: Label)
    requires SerialsOk(s) && Enabled(s, l) && l.WriteCert?
    ensures SerialsOk(Next(s, l))
  {
    var t := Next(s, l);
    forall d, f | d in t.issued && f in t.issued[d].certs
      ensures (d == l.temp && f == l.file && t.issued[d].certs[f] == l.serial)
              || (d in s.issued && f in s.issued[d].certs && t.issued[d].certs[f] == s.issued[d].certs[f]
                  && t.issued[d].certs[f] != l.serial)
    {
    }
  }

  lemma SerialsKept(s: Durable, l: Label)
    requires WellFormed(s) && Enabled(s, l)
    ensures CounterOk(Next(s, l)) && SerialsOk(Next(s, l))
  {
    if l.WriteCert? {
      WriteCertKeepsSerials(s, l);
    } else if l.PublishDirectory? {
      MovingKeepsSerials(s, Next(s, l), d => if d == l.name then l.temp else d);
    } else {
      MovingKeepsSerials(s, Next(s, l), d => d);
    }
  }

  lemma DirectoriesKept(s: Durable, l: Label)
    requires WellFormed(s) && Enabled(s, l)
    ensures DirectoriesOk(Next(s, l))
  {
    if l.PublishDirectory? {
      AcceptedNamesAreRoutable(l.name);
    }
  }

  /** A bundle with a manifest keeps its manifest, but for the state, and stays where it is. */
  ghost predicate InventoryGrows(s: Durable, t: Durable) {
    forall name | name in s.issued && s.issued[name].manifest.Some? ::
      && name in t.issued && t.issued[name].manifest.Some?
      && t.issued[name].certs == s.issued[name].certs
      && (t.issued[name].manifest == s.issued[name].manifest
          || t.issued[name].manifest == Some(s.issued[name].manifest.value.(state := Revoked)))
  }

  lemma ManifestKept(s: Durable, l: Label, name: string)
    requires DirectoriesOk(s) && Enabled(s, l)
    requires name in s.issued && s.issued[name].manifest.Some?
    ensures var t := Next(s, l);
            && name in t.issued && t.issued[name].certs == s.issued[name].certs
            && t.issued[name].manifest ==
               if l == RevokeManifest(name) then Some(s.issued[name].manifest.value.(state := Revoked)) else s.issued[name].manifest
  {
    assert !Hidden(name);
  }

  lemma InventoryGrowsByStep(s: Durable, l: Label)
    requires DirectoriesOk(s) && Enabled(s, l)
    ensures InventoryGrows(s, Next(s, l))
  {
    forall name | name in s.issued && s.issued[name].manifest.Some?
      ensures var t := Next(s, l);
              && name in t.issued && t.issued[name].manifest.Some? && t.issued[name].certs == s.issued[name].certs
              && (t.issued[name].manifest == s.issued[name].manifest
                  || t.issued[name].manifest == Some(s.issued[name].manifest.value.(state := Revoked)))
    {
      ManifestKept(s, l, name);
    }
  }

  /** A manifest in the next state was there before, or this step wrote it. */
  lemma ManifestOrigin(s: Durable, l: Label, name: string)
    requires DirectoriesOk(s) && Enabled(s, l)
    requires name in Next(s, l).issued && Next(s, l).issued[name].manifest.Some?
    ensures (l.IssueManifest? && l.name == name)
            || (name in s.issued && s.issued[name].manifest.Some?
                && s.issued[name].manifest.value.serials == Next(s, l).issued[name].manifest.value.serials
                && s.issued[name].manifest.value.kind == Next(s, l).issued[name].manifest.value.kind)
  {
  }

  lemma RegisteredGrows(s: Durable, t: Durable, kind: BundleKind)
    requires DirectoriesOk(s) && InventoryGrows(s, t)
    ensures Registered(s.issued, kind, {}) <= Registered(t.issued, kind, {})
  {
    forall x | x in Registered(s.issued, kind, {})
      ensures x in Registered(t.issued, kind, {})
    {
      var name :| name in s.issued && Listed(s.issued, name, kind, {}) && x in s.issued[name].manifest.value.serials;
      assert Listed(t.issued, name, kind, {});
    }
  }

  lemma RegisteredShrinksBySkipping(issued: map<string, Directory>, kind: BundleKind, target: string, skipped: set<string>)
    ensures RevokedSerials(issued, kind, target, skipped) <= Registered(issued, kind, skipped) <= Registered(issued, kind, {})
  {
    forall x | x in Registered(issued, kind, skipped)
      ensures x in Registered(issued, kind, {})
    {
      var name :| name in issued && Listed(issued, name, kind, skipped) && x in issued[name].manifest.value.serials;
      assert Listed(issued, name, kind, {});
    }
  }

  lemma IssuerKept(s: Durable, l: Label, ca: CaKind)
    requires WellFormed(s) && Enabled(s, l)
    ensures IssuerOk(Next(s, l), ca)
  {
    InventoryGrowsByStep(s, l);
    RegisteredGrows(s, Next(s, l), KindOf(ca));
    if l.ReplaceCrl? || l.ReplaceIndex? {
      RegisteredShrinksBySkipping(s.issued, KindOf(l.ca), l.target, l.skipped);
    }
  }

  /** What a refresh publishes treats all serials of a bundle alike, whatever manifests it skipped. */
  lemma RefreshIsCoherent(s: Durable, name: string, target: string, skipped: set<string>)
    requires SerialsOk(s) && DirectoriesOk(s)
    requires name in s.issued && s.issued[name].manifest.Some?
    ensures var m := s.issued[name].manifest.value;
            && OneStatus(m.serials, Rows(s.issued, m.kind, target, skipped))
            && AllOrNone(m.serials, RevokedSerials(s.issued, m.kind, target, skipped))
  {
    forall x | x in s.issued[name].manifest.value.serials
      ensures var m := s.issued[name].manifest.value;
              && (x in Registered(s.issued, m.kind, skipped) <==> name !in skipped)
              && (x in RevokedSerials(s.issued, m.kind, target, skipped) <==>
                  name !in skipped && (name == target || m.state == Revoked))
    {
      RowOfBundle(s, name, target, skipped, x);
    }
  }

  /** A serial that no manifest of the issuer lists is in neither artefact. */
  lemma UnlistedIsUnpublished(s: Durable, ca: CaKind, x: nat)
    requires IssuerOk(s, ca)
    requires forall name | Listed(s.issued, name, KindOf(ca), {}) :: x !in s.issued[name].manifest.value.serials
    ensures x !in s.Issuer(ca).index && (s.Issuer(ca).crl.Some? ==> x !in s.Issuer(ca).crl.value.revoked)
  {
    assert x !in Registered(s.issued, KindOf(ca), {});
  }

  lemma NewBundleIsUnpublished(s: Durable, l: Label, ca: CaKind, x: nat)
    requires WellFormed(s) && Enabled(s, l) && l.IssueManifest? && CaOf(l.kind) == ca
    requires x in Next(s, l).issued[l.name].manifest.value.serials
    ensures x !in s.Issuer(ca).index && (s.Issuer(ca).crl.Some? ==> x !in s.Issuer(ca).crl.value.revoked)
  {
    var t := Next(s, l);
    SerialsKept(s, l);
    DirectoriesKept(s, l);
    InventoryGrowsByStep(s, l);
    forall name | Listed(s.issued, name, KindOf(ca), {})
      ensures x !in s.issued[name].manifest.value.serials
    {
      if x in s.issued[name].manifest.value.serials {
        OneOwner(t, name, l.name, x);
      }
    }
    UnlistedIsUnpublished(s, ca, x);
  }

  lemma NewBundleIsCoherent(s: Durable, l: Label)
    requires WellFormed(s) && Enabled(s, l) && l.IssueManifest?
    ensures BundleCoherent(Next(s, l).issued[l.name].manifest.value.serials, s.Issuer(CaOf(l.kind)))
  {
    var ca := CaOf(l.kind);
    forall x | x in Next(s, l).issued[l.name].manifest.value.serials
      ensures x !in s.Issuer(ca).index && (s.Issuer(ca).crl.Some? ==> x !in s.Issuer(ca).crl.value.revoked)
    {
      NewBundleIsUnpublished(s, l, ca, x);
    }
  }

  lemma OtherStepKeepsArtefacts(s: Durable, l: Label, ca: CaKind)
    requires Enabled(s, l) && !l.ReplaceCrl? && !l.ReplaceIndex?
    ensures Next(s, l).Issuer(ca).index == s.Issuer(ca).index && Next(s, l).Issuer(ca).crl == s.Issuer(ca).crl
  {
  }

  lemma RefreshKeepsCoherent(s: Durable, l: Label, ca: CaKind, serials: seq<nat>)
    requires Enabled(s, l) && (l.ReplaceCrl? || l.ReplaceIndex?) && BundleCoherent(serials, s.Issuer(ca))
    requires l.ca == ca ==> OneStatus(serials, Rows(s.issued, KindOf(ca), l.target, l.skipped))
                            && AllOrNone(serials, RevokedSerials(s.issued, KindOf(ca), l.target, l.skipped))
    ensures BundleCoherent(serials, Next(s, l).Issuer(ca))
  {
  }

  lemma OldBundleStaysCoherent(s: Durable, l: Label, name: string)
    requires WellFormed(s) && Enabled(s, l)
    requires name in s.issued && s.issued[name].manifest.Some?
    ensures var m := s.issued[name].manifest.value;
            BundleCoherent(m.serials, Next(s, l).Issuer(CaOf(m.kind)))
  {
    var m := s.issued[name].manifest.value;
    var ca := CaOf(m.kind);
    assert Listed(s.issued, name, KindOf(ca), {});
    assert BundleCoherent(m.serials, s.Issuer(ca));
    if l.ReplaceCrl? || l.ReplaceIndex? {
      RefreshIsCoherent(s, name, l.target, l.skipped);
      RefreshKeepsCoherent(s, l, ca, m.serials);
    } else {
      OtherStepKeepsArtefacts(s, l, ca);
    }
  }

  lemma BundleCoherenceKept(s: Durable, l: Label, ca: CaKind, name: string)
    requires WellFormed(s) && Enabled(s, l)
    requires Listed(Next(s, l).issued, name, KindOf(ca), {})
    ensures BundleCoherent(Next(s, l).issued[name].manifest.value.serials, Next(s, l).Issuer(ca))
  {
    ManifestOrigin(s, l, name);
    if l.IssueManifest? && l.name == name {
      NewBundleIsCoherent(s, l);
    } else {
      OldBundleStaysCoherent(s, l, name);
    }
  }

  lemma StepKeepsWellFormed(s: Durable, l: Label)
    requires WellFormed(s) && Enabled(s, l)
    ensures WellFormed(Next(s, l))
  {
    SerialsKept(s, l);
    DirectoriesKept(s, l);
    IssuerKept(s, l, RsaCa);
    IssuerKept(s, l, Sm2Ca);
    forall ca, name | Listed(Next(s, l).issued, name, KindOf(ca), {})
      ensures BundleCoherent(Next(s, l).issued[name].manifest.value.serials, Next(s, l).Issuer(ca))
    {
      BundleCoherenceKept(s, l, ca, name);
    }
  }

  /** Every reachable state is well formed. */
  lemma {:induction false} ReachableIsWellFormed(labels: seq<Label>)
    requires Legal(labels)
    ensures WellFormed(Run(labels))
  {
    if labels != [] {
      var n := |labels| - 1;
      ReachableIsWellFormed(labels[..n]);
      StepKeepsWellFormed(Run(labels[..n]), labels[n]);
    }
  }
}
