/**
 * The engine over the disk: serial allocation, staged bundle issuance, staged CRL publication and the OCSP
 * lookup. Every disk or tool step may fail; each change that reaches the disk is one step of the lifecycle
 * machine.
 */
module Engine {
  import opened Basics
  import opened Names
  import opened Inventory
  import opened Machine
  import opened Requests
  import opened Commands

  datatype EngineError = TimedOut | AlreadyExists | DatabaseConflict | InvalidRequest | OtherFailure

  /** The durable state and, for the proof only, the run of single changes that led to it. */
  class Disk {
    var now: Durable
    ghost var labels: seq<Label>

    /** How many operations of the environment failed so far. */
    ghost var faults: nat

    ghost predicate Valid()
      reads this`now, this`labels
    {
      Legal(labels) && now == Run(labels)
    }

    /** The disk after a completed initialisation. */
    constructor Initialized()
      ensures Valid() && now == INITIAL && labels == []
    {
      now := INITIAL;
      labels := [];
      faults := 0;
    }

    /** An operation of the environment that changes nothing in this model: it succeeds, or fails and is counted. */
    method Try() returns (ok: bool)
      modifies this`faults
      ensures faults == if ok then old(faults) else old(faults) + 1
    {
      ok := Attempt();
      if !ok {
        faults := faults + 1;
      }
    }

    /** A failure that the state decides, as an exhausted search for a free temporary name. */
    method Fail()
      modifies this`faults
      ensures faults == old(faults) + 1
    {
      faults := faults + 1;
    }

    /** One durable change; the caller proves that it is a step of the machine. */
    method Commit(after: Durable, ghost l: Label)
      requires Valid() && Enabled(now, l) && after == Next(now, l)
      modifies this`now, this`labels
      ensures Valid() && now == after && labels == old(labels) + [l]
    {
      Extend(labels, l);
      now := after;
      labels := labels + [l];
    }
  }

  // ---- The certificate database of the tool, in its private working directory ----

  /** ca -valid: adds a valid row, refused when the serial is present. */
  function RegisterRow(rows: map<nat, RowStatus>, serial: nat): Option<map<nat, RowStatus>> {
    if serial in rows then None else Some(rows[serial := V])
  }

  /** ca -revoke: turns the row to revoked, refused when it is revoked already. */
  function RevokeRow(rows: map<nat, RowStatus>, serial: nat): Option<map<nat, RowStatus>> {
    if serial in rows && rows[serial] == R then None else Some(rows[serial := R])
  }

  /** ca -gencrl: lists the revoked rows under the current number. */
  function GenerateFrom(rows: map<nat, RowStatus>, number: nat): Crl {
    Crl(number, set serial | serial in rows && rows[serial] == R)
  }

  ghost predicate OnDisk(s: Durable, cert: CertPath) {
    cert.directory in s.issued && cert.file in s.issued[cert.directory].certs
  }

  ghost function SerialAt(s: Durable, cert: CertPath): nat
    requires OnDisk(s, cert)
  {
    s.issued[cert.directory].certs[cert.file]
  }

  ghost predicate AllOnDisk(s: Durable, certs: seq<CertPath>) {
    forall i | 0 <= i < |certs| :: OnDisk(s, certs[i])
  }

  ghost function SerialSet(s: Durable, certs: seq<CertPath>): set<nat>
    requires AllOnDisk(s, certs)
  {
    set i | 0 <= i < |certs| :: SerialAt(s, certs[i])
  }

  /** The serials of the first n certificates. */
  ghost function SerialsBefore(s: Durable, certs: seq<CertPath>, n: nat): set<nat>
    requires AllOnDisk(s, certs) && n <= |certs|
  {
    set i | 0 <= i < n :: SerialAt(s, certs[i])
  }

  /** A later certificate of the list brings a serial that none before it has. */
  lemma SerialIsNew(s: Durable, certs: seq<CertPath>, i: nat)
    requires SerialsOk(s) && AllOnDisk(s, certs) && Distinct(certs) && i < |certs|
    ensures SerialAt(s, certs[i]) !in SerialsBefore(s, certs, i)
    ensures SerialsBefore(s, certs, i + 1) == SerialsBefore(s, certs, i) + {SerialAt(s, certs[i])}
    ensures SerialAt(s, certs[i]) in SerialSet(s, certs)
  {
    forall j | 0 <= j < i
      ensures SerialAt(s, certs[j]) != SerialAt(s, certs[i])
    {
      DistinctPathsDistinctSerials(s, certs[j], certs[i]);
    }
  }

  /** Rows for all these serials, the marked ones revoked. */
  ghost function Marked(all: set<nat>, revoked: set<nat>): map<nat, RowStatus> {
    map x | x in all :: if x in revoked then R else V
  }

  lemma MarkOneMore(all: set<nat>, revoked: set<nat>, x: nat)
    requires x in all
    ensures Marked(all, revoked)[x := R] == Marked(all, revoked + {x})
  {
  }

  ghost predicate ToolError(e: EngineError) {
    e == TimedOut || e == OtherFailure
  }

  function Publication(ca: CaKind, target: string, skipped: set<string>): seq<Label> {
    [ReplaceCrl(ca, target, skipped), ReplaceIndex(ca, target, skipped), ReplaceNumber(ca)]
  }

  /** What a publication has prepared in its private directory before the first rename. */
  datatype StagedCrl = StagedCrl(rows: map<nat, RowStatus>, crl: Crl)

  /** The two path lists are what a refresh that skipped some manifests collects for this issuer. */
  ghost predicate ListsInventory(s: Durable, ca: CaKind, valid: seq<CertPath>, revoked: seq<CertPath>, target: string, skipped: set<string>) {
    && AllOnDisk(s, valid + revoked) && Distinct(valid + revoked)
    && AllOnDisk(s, revoked) && Distinct(revoked)
    && SerialSet(s, valid + revoked) == Registered(s.issued, KindOf(ca), skipped)
    && SerialSet(s, revoked) == RevokedSerials(s.issued, KindOf(ca), target, skipped)
  }

  lemma DistinctPathsDistinctSerials(s: Durable, p: CertPath, q: CertPath)
    requires SerialsOk(s) && OnDisk(s, p) && OnDisk(s, q) && p != q
    ensures SerialAt(s, p) != SerialAt(s, q)
  {
  }

  // ---- Issuance ----

  /** The certificates that a command list writes, by file. */
  function Written(commands: seq<Command>): map<string, nat> {
    if commands == [] then map[]
    else
      var n := |commands| - 1;
      if commands[n].Sign? then Written(commands[..n])[commands[n].file := commands[n].serial] else Written(commands[..n])
  }

  ghost predicate SignsFresh(commands: seq<Command>, low: nat, high: nat) {
    && (forall i | 0 <= i < |commands| && commands[i].Sign? :: low <= commands[i].serial < high)
    && (forall i, j | 0 <= i < j < |commands| && commands[i].Sign? && commands[j].Sign? ::
          commands[i].serial != commands[j].serial && commands[i].file != commands[j].file)
  }

  lemma {:induction false} WrittenComesFromSigns(commands: seq<Command>, file: string)
    requires file in Written(commands)
    ensures exists i :: 0 <= i < |commands| && commands[i] == Sign(file, Written(commands)[file])
  {
    var n := |commands| - 1;
    if commands[n].Sign? && commands[n].file == file {
      assert commands[n] == Sign(file, Written(commands)[file]);
    } else {
      WrittenComesFromSigns(commands[..n], file);
      var i :| 0 <= i < n && commands[..n][i] == Sign(file, Written(commands)[file]);
      assert commands[i] == Sign(file, Written(commands)[file]);
    }
  }

  lemma WrittenBySteps(before: seq<Command>, command: Command)
    ensures Written(before + [command]) ==
            if command.Sign? then Written(before)[command.file := command.serial] else Written(before)
  {
    assert (before + [command])[..|before|] == before;
  }

  lemma WrittenByCertify(before: seq<Command>, stem: string, file: string, serial: nat)
    ensures Written(before + Certify(stem, file, serial)) == Written(before)[file := serial]
  {
    OneByOne(before, GenerateKey(stem), MakeRequest(stem), Sign(file, serial));
    WrittenBySteps(before, GenerateKey(stem));
    WrittenBySteps(before + [GenerateKey(stem)], MakeRequest(stem));
    WrittenBySteps(before + [GenerateKey(stem)] + [MakeRequest(stem)], Sign(file, serial));
  }

  lemma OneByOne<T>(xs: seq<T>, a: T, b: T, c: T)
    ensures xs + [a, b, c] == xs + [a] + [b] + [c]
  {
  }

  lemma WrittenByRsa(serial: nat)
    ensures Written(RsaCommands(serial)) == map[RSA_CERT := serial]
    ensures SignsFresh(RsaCommands(serial), serial, serial + 1)
  {
    WrittenByCertify([], RSA_STEM, RSA_CERT, serial);
    assert [] + Certify(RSA_STEM, RSA_CERT, serial) == Certify(RSA_STEM, RSA_CERT, serial);
    WrittenBySteps(Certify(RSA_STEM, RSA_CERT, serial), VerifyCert(RSA_CERT));
  }

  lemma WrittenByTlcp(signSerial: nat, encSerial: nat)
    requires signSerial < encSerial
    ensures Written(TlcpCommands(signSerial, encSerial)) == map[SIGN_CERT := signSerial, ENC_CERT := encSerial]
  {
    var signing, encryption := Certify(SIGN_STEM, SIGN_CERT, signSerial), Certify(ENC_STEM, ENC_CERT, encSerial);
    WrittenByCertify([], SIGN_STEM, SIGN_CERT, signSerial);
    assert [] + signing == signing;
    WrittenByCertify(signing, ENC_STEM, ENC_CERT, encSerial);
    WrittenBySteps(signing + encryption, VerifyCert(SIGN_CERT));
    WrittenBySteps(signing + encryption + [VerifyCert(SIGN_CERT)], VerifyCert(ENC_CERT));
    TwoMore(signing + encryption, VerifyCert(SIGN_CERT), VerifyCert(ENC_CERT));
  }

  lemma TwoMore<T>(xs: seq<T>, a: T, b: T)
    ensures xs + [a, b] == xs + [a] + [b]
  {
  }

  lemma FreshByTlcp(signSerial: nat, encSerial: nat)
    requires signSerial < encSerial
    ensures SignsFresh(TlcpCommands(signSerial, encSerial), signSerial, encSerial + 1)
  {
    DistinctCertFiles();
    var commands := TlcpCommands(signSerial, encSerial);
    assert |commands| == 8 && commands[2] == Sign(SIGN_CERT, signSerial) && commands[5] == Sign(ENC_CERT, encSerial);
    assert forall i | 0 <= i < 8 && i != 2 && i != 5 :: !commands[i].Sign?;
  }

  /** An empty staging directory, and commands that sign with serials taken for them. */
  ghost predicate Building(s: Durable, temp: string, commands: seq<Command>, low: nat) {
    && Hidden(temp) && temp in s.issued && s.issued[temp] == Directory(map[], None)
    && 1 <= low && SignsFresh(commands, low, s.nextSerial) && forall x | low <= x :: !UsedSerial(s, x)
  }

  /** The state after these commands: the staging directory holds their certificates, nothing else differs. */
  ghost function Built(s: Durable, temp: string, commands: seq<Command>): Durable {
    s.(issued := s.issued[temp := Directory(Written(commands), None)])
  }

  /** after continues before with steps that touch no manifest and no published issuer file. */
  ghost predicate IssuanceSteps(before: seq<Label>, after: seq<Label>) {
    && before <= after
    && forall i | |before| <= i < |after| ::
         after[i].TakeSerial? || after[i].Stage? || after[i].WriteCert? || after[i].Discard? || after[i].PublishDirectory?
  }

  /** Nothing but hidden directories and the counter differs. */
  ghost predicate SameInventory(s: Durable, t: Durable) {
    && s.rsa == t.rsa && s.sm2 == t.sm2 && s.nextSerial <= t.nextSerial
    && forall name | !Hidden(name) :: (name in s.issued <==> name in t.issued) && (name in s.issued ==> s.issued[name] == t.issued[name])
  }

  /** A new bundle with fresh serials became visible, without a manifest yet, and nothing else did. */
  ghost predicate BundleAdded(s: Durable, t: Durable, name: string, kind: BundleKind) {
    && s.rsa == t.rsa && s.sm2 == t.sm2 && s.nextSerial <= t.nextSerial
    && !Hidden(name) && name !in s.issued && name in t.issued && t.issued[name].manifest.None?
    && HasCertsOf(t.issued[name].certs, kind)
    && (forall f | f in t.issued[name].certs :: s.nextSerial <= t.issued[name].certs[f] < t.nextSerial)
    && forall other | !Hidden(other) && other != name ::
         (other in s.issued <==> other in t.issued) && (other in s.issued ==> s.issued[other] == t.issued[other])
  }

  /** The name of a staging directory as MkdirTemp completes it. */
  function StagingName(name: string, suffix: string): (temp: string)
    ensures Hidden(temp) && temp[0] == '.'
  {
    "." + name + "-" + suffix
  }

  /** Staging an empty directory and taking serials leaves everything ready for the commands. */
  ghost predicate Staged(s: Durable, t: Durable, temp: string) {
    && Hidden(temp) && temp !in s.issued && s.nextSerial <= t.nextSerial
    && t == s.(nextSerial := t.nextSerial, issued := s.issued[temp := Directory(map[], None)])
  }

  lemma StagedIsBuilding(s: Durable, t: Durable, temp: string, commands: seq<Command>)
    requires WellFormed(s) && Staged(s, t, temp) && SignsFresh(commands, s.nextSerial, t.nextSerial)
    ensures Building(t, temp, commands, s.nextSerial)
  {
    NoSerialAbove(s, t);
  }

  ghost function PublishedDirectory(s: Durable, temp: string, name: string): Durable
    requires temp in s.issued
  {
    s.(issued := (s.issued - {temp})[name := s.issued[temp]])
  }

  /** The rename turns a staging directory into a bundle with fresh serials. */
  lemma BuiltBundleIsAdded(s: Durable, t: Durable, u: Durable, temp: string, name: string, commands: seq<Command>, kind: BundleKind)
    requires Staged(s, t, temp) && SafeName(name) && name !in s.issued && HasCertsOf(Written(commands), kind)
    requires SignsFresh(commands, s.nextSerial, t.nextSerial)
    requires u == PublishedDirectory(Built(t, temp, commands), temp, name)
    ensures BundleAdded(s, u, name, kind)
  {
    AcceptedNamesAreRoutable(name);
    forall f | f in Written(commands)
      ensures s.nextSerial <= Written(commands)[f] < t.nextSerial
    {
      WrittenComesFromSigns(commands, f);
    }
  }

  class Engine {
    const disk: Disk
    var calls: seq<Invocation>

    constructor (disk: Disk)
      ensures this.disk == disk && calls == []
    {
      this.disk := disk;
      calls := [];
    }

    /** One tool call: recorded, and it may fail or time out. */
    method RunTool(command: Command) returns (r: Result<(), EngineError>)
      modifies this`calls, disk`faults
      ensures calls == old(calls) + [Invocation(command, r.Ok?)]
      ensures r.Err? ==> r.error == TimedOut || r.error == OtherFailure
      ensures disk.faults == if r.Ok? then old(disk.faults) else old(disk.faults) + 1
    {
      var ok := disk.Try();
      calls := calls + [Invocation(command, ok)];
      var late := Attempt();
      r := if ok then Ok(()) else if late then Err(TimedOut) else Err(OtherFailure);
    }

    // ---- Serial numbers ----

    /** Takes the next serial; when the write fails after its rename, the number is lost but never reused. */
    method NextSerial() returns (r: Result<nat, EngineError>)
      requires disk.Valid()
      modifies disk
      ensures disk.Valid()
      ensures disk.labels == old(disk.labels) || disk.labels == old(disk.labels) + [TakeSerial]
      ensures disk.now == old(disk.now).(nextSerial := disk.now.nextSerial)
      ensures r.Ok? ==> disk.labels == old(disk.labels) + [TakeSerial] && r.value == old(disk.now.nextSerial) == disk.now.nextSerial - 1
      ensures r.Err? ==> r.error == OtherFailure
      ensures old(disk.faults) <= disk.faults && (r.Ok? ==> disk.faults == old(disk.faults))
      ensures r.Err? ==> old(disk.faults) < disk.faults || old(disk.now.nextSerial) == MAX_UINT64
    {
      var ok := disk.Try();
      if !ok {
        return Err(OtherFailure);
      }
      ReachableIsWellFormed(disk.labels);
      var serial := disk.now.nextSerial;
      if serial == 0 || serial == MAX_UINT64 {
        return Err(OtherFailure);
      }
      ok := disk.Try();
      if !ok {
        return Err(OtherFailure);
      }
      disk.Commit(disk.now.(nextSerial := serial + 1), TakeSerial);
      ok := disk.Try();
      r := if ok then Ok(serial) else Err(OtherFailure);
    }

    // ---- Bundles ----

    /** Makes a staging directory and restricts its mode; when that fails, it is removed again. */
    method MakeStaging(temp: string) returns (ok: bool)
      requires disk.Valid() && Hidden(temp)
      modifies disk
      ensures disk.Valid() && IssuanceSteps(old(disk.labels), disk.labels)
      ensures if ok then Staged(old(disk.now), disk.now, temp) && disk.now.nextSerial == old(disk.now.nextSerial)
              else SameInventory(old(disk.now), disk.now) && disk.now.nextSerial == old(disk.now.nextSerial)
      ensures old(disk.faults) <= disk.faults && (ok <==> disk.faults == old(disk.faults))
    {
      ok := disk.Try();
      if ok && temp in disk.now.issued {
        disk.Fail();
        ok := false;
      }
      if !ok {
        return;
      }
      disk.Commit(disk.now.(issued := disk.now.issued[temp := Directory(map[], None)]), Stage(temp));
      ok := disk.Try();
      if !ok {
        CleanUp(temp, old(disk.now));
      }
    }

    /** Opens a hidden staging directory for a name that is not taken. */
    method BeginBundle(name: string) returns (r: Result<string, EngineError>)
      requires disk.Valid() && SafeName(name)
      modifies disk
      ensures disk.Valid() && IssuanceSteps(old(disk.labels), disk.labels)
      ensures disk.now.nextSerial == old(disk.now.nextSerial)
      ensures if r.Ok? then name !in old(disk.now.issued) && Staged(old(disk.now), disk.now, r.value)
              else SameInventory(old(disk.now), disk.now)
      ensures name in old(disk.now.issued) ==> disk.labels == old(disk.labels)
      ensures r == Err(AlreadyExists) ==> name in old(disk.now.issued)
      ensures r.Err? ==> r.error == AlreadyExists || r.error == OtherFailure
      ensures old(disk.faults) <= disk.faults && (r.Ok? ==> disk.faults == old(disk.faults))
      ensures r == Err(OtherFailure) ==> old(disk.faults) < disk.faults
    {
      var ok := disk.Try();
      if !ok {
        return Err(OtherFailure);
      }
      if name in disk.now.issued {
        return Err(AlreadyExists);
      }
      var suffix: string := *;
      var temp := StagingName(name, suffix);
      ok := MakeStaging(temp);
      r := if ok then Ok(temp) else Err(OtherFailure);
    }

    /** The deferred removal of a staging directory, whose own failure is ignored. */
    method CleanUp(temp: string, ghost start: Durable)
      requires disk.Valid() && Hidden(temp) && SameInventory(start, disk.now)
      modifies disk
      ensures disk.Valid() && IssuanceSteps(old(disk.labels), disk.labels) && SameInventory(start, disk.now)
      ensures disk.now == old(disk.now) || disk.now == old(disk.now).(issued := old(disk.now.issued) - {temp})
      ensures old(disk.faults) <= disk.faults
    {
      var ok := disk.Try();
      if ok {
        disk.Commit(disk.now.(issued := disk.now.issued - {temp}), Discard(temp));
      }
    }

    /** One command in the staging directory: a signing command leaves its certificate there. */
    method RunStep(temp: string, commands: seq<Command>, i: nat, ghost start: Durable, ghost low: nat)
      returns (r: Result<(), EngineError>)
      requires i < |commands| && Building(start, temp, commands, low) && disk.Valid()
      requires disk.now == Built(start, temp, commands[..i])
      modifies this`calls, disk
      ensures disk.Valid() && calls == old(calls) + [Invocation(commands[i], r.Ok?)]
      ensures disk.now == Built(start, temp, if r.Ok? then commands[..i + 1] else commands[..i])
      ensures IssuanceSteps(old(disk.labels), disk.labels)
      ensures r.Err? ==> ToolError(r.error)
      ensures old(disk.faults) <= disk.faults && (r.Ok? <==> disk.faults == old(disk.faults))
    {
      assert commands[..i + 1] == commands[..i] + [commands[i]];
      WrittenBySteps(commands[..i], commands[i]);
      r := RunTool(commands[i]);
      if r.Ok? && commands[i].Sign? {
        SignIsEnabled(start, temp, commands, i, low);
        var staged := disk.now.issued[temp];
        disk.Commit(disk.now.(issued := disk.now.issued[temp := staged.(certs := staged.certs[commands[i].file := commands[i].serial])]),
                    WriteCert(temp, commands[i].file, commands[i].serial));
      }
    }

    /** Runs the commands in order and stops at the first that fails. */
    method RunAll(temp: string, commands: seq<Command>, ghost low: nat) returns (r: Result<(), EngineError>, ghost ran: nat)
      requires disk.Valid() && Building(disk.now, temp, commands, low)
      modifies this`calls, disk
      ensures disk.Valid() && IssuanceSteps(old(disk.labels), disk.labels)
      ensures ran <= |commands| && calls == old(calls) + Ran(commands[..ran], r.Ok?)
      ensures if r.Ok? then ran == |commands| && disk.now == Built(old(disk.now), temp, commands)
              else ran > 0 && disk.now == Built(old(disk.now), temp, commands[..ran - 1])
      ensures r.Err? ==> ToolError(r.error)
      ensures old(disk.faults) <= disk.faults && (r.Ok? <==> disk.faults == old(disk.faults))
      ensures r.Err? ==> LastFailed(old(calls), calls)
    {
      ghost var start := disk.now;
      ran := 0;
      for i := 0 to |commands|
        invariant disk.Valid() && IssuanceSteps(old(disk.labels), disk.labels)
        invariant ran == i && calls == old(calls) + Ran(commands[..i], true) && disk.faults == old(disk.faults)
        invariant disk.now == Built(start, temp, commands[..i])
      {
        assert commands[..i + 1] == commands[..i] + [commands[i]];
        r := RunStep(temp, commands, i, start, low);
        RanOneMore(commands, i, r.Ok?);
        ran := ran + 1;
        if r.Err? {
          FailedRunEndsFailed(old(calls), commands[..i + 1]);
          return;
        }
      }
      assert commands[..|commands|] == commands;
      r := Ok(());
    }

    /** The rename to the final name; an error of the directory sync is reported after it took effect. */
    method PublishBundle(temp: string, name: string, kind: BundleKind) returns (ok: bool)
      requires disk.Valid() && Enabled(disk.now, PublishDirectory(temp, name, kind))
      modifies disk
      ensures disk.Valid() && disk.labels == old(disk.labels) + [PublishDirectory(temp, name, kind)]
      ensures disk.now == PublishedDirectory(old(disk.now), temp, name)
      ensures disk.faults == if ok then old(disk.faults) else old(disk.faults) + 1
    {
      disk.Commit(disk.now.(issued := (disk.now.issued - {temp})[name := disk.now.issued[temp]]), PublishDirectory(temp, name, kind));
      ok := disk.Try();
    }

    /**
     * Runs the commands in the staging directory and renames it to its final name; only the rename makes it visible,
     * and a failure before it leaves nothing but hidden directories behind.
     */
    method BuildAndPublish(temp: string, name: string, commands: seq<Command>, kind: BundleKind, ghost start: Durable)
      returns (r: Result<(), EngineError>, ghost published: bool)
      requires disk.Valid() && WellFormed(start) && Staged(start, disk.now, temp)
      requires SafeName(name) && name !in start.issued && HasCertsOf(Written(commands), kind)
      requires SignsFresh(commands, start.nextSerial, disk.now.nextSerial)
      modifies this`calls, disk
      ensures disk.Valid() && IssuanceSteps(old(disk.labels), disk.labels)
      ensures r.Ok? ==> published
      ensures if published then BundleAdded(start, disk.now, name, kind) else SameInventory(start, disk.now)
      ensures published ==> disk.now.issued[name].certs == Written(commands) && calls == old(calls) + Ran(commands, true)
      ensures r.Err? ==> ToolError(r.error)
      ensures old(disk.faults) <= disk.faults && (r.Ok? <==> disk.faults == old(disk.faults))
      ensures old(calls) <= calls && (r == Err(TimedOut) ==> LastFailed(old(calls), calls))
    {
      published := false;
      StagedIsBuilding(start, disk.now, temp, commands);
      ghost var ran;
      r, ran := RunAll(temp, commands, start.nextSerial);
      var ok := disk.Try();
      if r.Err? || !ok {
        CleanUp(temp, start);
        return if r.Err? then r else Err(OtherFailure), published;
      }
      BuiltBundleIsAdded(start, old(disk.now), PublishedDirectory(disk.now, temp, name), temp, name, commands, kind);
      assert commands[..ran] == commands;
      ok := PublishBundle(temp, name, kind);
      published := true;
      r := if ok then Ok(()) else Err(OtherFailure);
    }

    /** Takes the serial of the bundle and prepares its extension file, or removes the staging directory. */
    method PrepareRsa(temp: string, ghost start: Durable) returns (r: Result<nat, EngineError>)
      requires disk.Valid() && Staged(start, disk.now, temp) && disk.now.nextSerial == start.nextSerial
      modifies disk
      ensures disk.Valid() && IssuanceSteps(old(disk.labels), disk.labels)
      ensures if r.Ok? then Staged(start, disk.now, temp) && r.value == start.nextSerial == disk.now.nextSerial - 1
              else SameInventory(start, disk.now) && r.error == OtherFailure
      ensures old(disk.faults) <= disk.faults && (r.Ok? ==> disk.faults == old(disk.faults))
      ensures r.Err? ==> old(disk.faults) < disk.faults || start.nextSerial == MAX_UINT64
    {
      r := NextSerial();
      var ok := disk.Try();
      if r.Err? || !ok {
        CleanUp(temp, start);
        r := Err(OtherFailure);
      }
    }

    /** Takes the serials and builds the bundle in its staging directory. */
    method SignRsa(name: string, temp: string, ghost start: Durable) returns (r: Result<nat, EngineError>, ghost published: bool)
      requires disk.Valid() && WellFormed(start) && Staged(start, disk.now, temp) && disk.now.nextSerial == start.nextSerial
      requires SafeName(name) && name !in start.issued
      modifies this`calls, disk
      ensures disk.Valid() && IssuanceSteps(old(disk.labels), disk.labels)
      ensures r.Ok? ==> published && name in disk.now.issued && disk.now.issued[name].certs == map[RSA_CERT := r.value]
      ensures r.Err? ==> ToolError(r.error)
      ensures if published then BundleAdded(start, disk.now, name, Rsa) else SameInventory(start, disk.now)
      ensures published ==> calls == old(calls) + Ran(RsaCommands(disk.now.issued[name].certs[RSA_CERT]), true)
      ensures old(disk.faults) <= disk.faults && (r.Ok? ==> disk.faults == old(disk.faults))
      ensures old(calls) <= calls && (r == Err(TimedOut) ==> LastFailed(old(calls), calls))
      ensures r.Err? ==> old(disk.faults) < disk.faults || old(disk.now.nextSerial) == MAX_UINT64
    {
      published := false;
      var serial := PrepareRsa(temp, start);
      if serial.Err? {
        return Err(OtherFailure), published;
      }
      WrittenByRsa(serial.value);
      var done;
      done, published := BuildAndPublish(temp, name, RsaCommands(serial.value), Rsa, start);
      r := if done.Ok? then Ok(serial.value) else Err(done.error);
    }

    method IssueRsa(req: Request) returns (r: Result<nat, EngineError>, ghost published: bool)
      requires disk.Valid()
      modifies this`calls, disk
      ensures disk.Valid() && IssuanceSteps(old(disk.labels), disk.labels)
      ensures !ValidRequest(req) ==> r == Err(InvalidRequest) && disk.labels == old(disk.labels) && calls == old(calls)
      ensures req.name in old(disk.now.issued) ==> r.Err? && !published && disk.labels == old(disk.labels) && calls == old(calls)
      ensures r == Err(AlreadyExists) ==> req.name in old(disk.now.issued)
      ensures ValidRequest(req) && req.name in old(disk.now.issued) ==> r == Err(AlreadyExists) || old(disk.faults) < disk.faults
      ensures r.Ok? ==> published && req.name in disk.now.issued && disk.now.issued[req.name].certs == map[RSA_CERT := r.value]
      ensures if published then BundleAdded(old(disk.now), disk.now, req.name, Rsa) else SameInventory(old(disk.now), disk.now)
      ensures published ==> calls == old(calls) + Ran(RsaCommands(disk.now.issued[req.name].certs[RSA_CERT]), true)
      ensures old(disk.faults) <= disk.faults && (r.Ok? ==> disk.faults == old(disk.faults))
      ensures old(calls) <= calls && (r == Err(TimedOut) ==> LastFailed(old(calls), calls))
      ensures published ==> CertifiedSince(old(calls), calls, disk.now.issued[req.name].certs)
      ensures r.Err? && ValidRequest(req) && req.name !in old(disk.now.issued) ==>
                old(disk.faults) < disk.faults || old(disk.now.nextSerial) == MAX_UINT64
    {
      published := false;
      var valid := ValidateRequest(req);
      if !valid {
        return Err(InvalidRequest), published;
      }
      ReachableIsWellFormed(disk.labels);
      var begun := BeginBundle(req.name);
      if begun.Err? {
        return Err(begun.error), published;
      }
      r, published := SignRsa(req.name, begun.value, old(disk.now));
      if published {
        RsaCertified(old(calls), disk.now.issued[req.name].certs);
      }
    }

    /** The two serials of a pair; a failure may burn one or both. */
    method NextSerialPair() returns (r: Result<(nat, nat), EngineError>)
      requires disk.Valid()
      modifies disk
      ensures disk.Valid() && IssuanceSteps(old(disk.labels), disk.labels)
      ensures disk.now == old(disk.now).(nextSerial := disk.now.nextSerial) && old(disk.now.nextSerial) <= disk.now.nextSerial
      ensures r.Ok? ==> r.value == (old(disk.now.nextSerial), old(disk.now.nextSerial) + 1) && disk.now.nextSerial == r.value.1 + 1
      ensures r.Err? ==> r.error == OtherFailure
      ensures old(disk.faults) <= disk.faults && (r.Ok? ==> disk.faults == old(disk.faults))
      ensures r.Err? ==> old(disk.faults) < disk.faults || old(disk.now.nextSerial) >= MAX_UINT64 - 1
    {
      var signing := NextSerial();
      if signing.Err? {
        return Err(OtherFailure);
      }
      var encryption := NextSerial();
      r := if encryption.Ok? then Ok((signing.value, encryption.value)) else Err(OtherFailure);
    }

    /** Takes the serials of the pair and prepares its extension files, or removes the staging directory. */
    method PrepareTlcp(temp: string, ghost start: Durable) returns (r: Result<(nat, nat), EngineError>)
      requires disk.Valid() && Staged(start, disk.now, temp) && disk.now.nextSerial == start.nextSerial
      modifies disk
      ensures disk.Valid() && IssuanceSteps(old(disk.labels), disk.labels)
      ensures if r.Ok? then Staged(start, disk.now, temp) && r.value == (start.nextSerial, start.nextSerial + 1)
                            && disk.now.nextSerial == start.nextSerial + 2
              else SameInventory(start, disk.now) && r.error == OtherFailure
      ensures old(disk.faults) <= disk.faults && (r.Ok? ==> disk.faults == old(disk.faults))
      ensures r.Err? ==> old(disk.faults) < disk.faults || start.nextSerial >= MAX_UINT64 - 1
    {
      r := NextSerialPair();
      var ok := disk.Try();
      if r.Err? || !ok {
        CleanUp(temp, start);
        r := Err(OtherFailure);
      }
    }

    /** Takes the serials and builds the bundle in its staging directory. */
    method SignTlcp(name: string, temp: string, ghost start: Durable) returns (r: Result<(nat, nat), EngineError>, ghost published: bool)
      requires disk.Valid() && WellFormed(start) && Staged(start, disk.now, temp) && disk.now.nextSerial == start.nextSerial
      requires SafeName(name) && name !in start.issued
      modifies this`calls, disk
      ensures disk.Valid() && IssuanceSteps(old(disk.labels), disk.labels)
      ensures r.Ok? ==> published && name in disk.now.issued
                        && disk.now.issued[name].certs == map[SIGN_CERT := r.value.0, ENC_CERT := r.value.1] && r.value.0 < r.value.1
      ensures r.Err? ==> ToolError(r.error)
      ensures if published then BundleAdded(start, disk.now, name, Tlcp) else SameInventory(start, disk.now)
      ensures published ==>
                calls == old(calls) + Ran(TlcpCommands(disk.now.issued[name].certs[SIGN_CERT],
                                                       disk.now.issued[name].certs[ENC_CERT]), true)
      ensures old(disk.faults) <= disk.faults && (r.Ok? ==> disk.faults == old(disk.faults))
      ensures old(calls) <= calls && (r == Err(TimedOut) ==> LastFailed(old(calls), calls))
      ensures r.Err? ==> old(disk.faults) < disk.faults || old(disk.now.nextSerial) >= MAX_UINT64 - 1
    {
      published := false;
      var pair := PrepareTlcp(temp, start);
      if pair.Err? {
        return Err(OtherFailure), published;
      }
      WrittenByTlcp(pair.value.0, pair.value.1);
      FreshByTlcp(pair.value.0, pair.value.1);
      var done;
      done, published := BuildAndPublish(temp, name, TlcpCommands(pair.value.0, pair.value.1), Tlcp, start);
      r := if done.Ok? then Ok(pair.value) else Err(done.error);
    }

    method IssueTlcp(req: Request) returns (r: Result<(nat, nat), EngineError>, ghost published: bool)
      requires disk.Valid()
      modifies this`calls, disk
      ensures disk.Valid() && IssuanceSteps(old(disk.labels), disk.labels)
      ensures !ValidRequest(req) ==> r == Err(InvalidRequest) && disk.labels == old(disk.labels) && calls == old(calls)
      ensures req.name in old(disk.now.issued) ==> r.Err? && !published && disk.labels == old(disk.labels) && calls == old(calls)
      ensures r == Err(AlreadyExists) ==> req.name in old(disk.now.issued)
      ensures ValidRequest(req) && req.name in old(disk.now.issued) ==> r == Err(AlreadyExists) || old(disk.faults) < disk.faults
      ensures r.Ok? ==> published && req.name in disk.now.issued
                        && disk.now.issued[req.name].certs == map[SIGN_CERT := r.value.0, ENC_CERT := r.value.1] && r.value.0 < r.value.1
      ensures if published then BundleAdded(old(disk.now), disk.now, req.name, Tlcp) else SameInventory(old(disk.now), disk.now)
      ensures published ==>
                calls == old(calls) + Ran(TlcpCommands(disk.now.issued[req.name].certs[SIGN_CERT],
                                                       disk.now.issued[req.name].certs[ENC_CERT]), true)
      ensures old(disk.faults) <= disk.faults && (r.Ok? ==> disk.faults == old(disk.faults))
      ensures old(calls) <= calls && (r == Err(TimedOut) ==> LastFailed(old(calls), calls))
      ensures published ==> CertifiedSince(old(calls), calls, disk.now.issued[req.name].certs)
      ensures r.Err? && ValidRequest(req) && req.name !in old(disk.now.issued) ==>
                old(disk.faults) < disk.faults || old(disk.now.nextSerial) >= MAX_UINT64 - 1
    {
      published := false;
      var valid := ValidateRequest(req);
      if !valid {
        return Err(InvalidRequest), published;
      }
      ReachableIsWellFormed(disk.labels);
      var begun := BeginBundle(req.name);
      if begun.Err? {
        return Err(begun.error), published;
      }
      r, published := SignTlcp(req.name, begun.value, old(disk.now));
      if published {
        TlcpCertified(old(calls), disk.now.issued[req.name].certs);
      }
    }

    // ---- Online status ----

    /** Answers from the issuer's index as it is on disk while the engine lock is held. */
    method RespondOcsp(ca: CaKind, requestSize: nat, serial: nat) returns (r: Result<OcspStatus, EngineError>)
      modifies this`calls, disk`faults
      ensures r.Ok? ==> r.value == Lookup(disk.now.Issuer(ca).index, serial) && calls == old(calls) + [Invocation(AnswerOcsp, true)]
      ensures requestSize == 0 || requestSize > 16 * 1024 ==> r.Err? && calls == old(calls)
      ensures old(disk.faults) <= disk.faults && (r.Ok? ==> disk.faults == old(disk.faults))
      ensures r == Err(TimedOut) ==> LastFailed(old(calls), calls)
      ensures r.Err? && 0 < requestSize <= 16 * 1024 ==> old(disk.faults) < disk.faults
    {
      if requestSize == 0 || requestSize > 16 * 1024 {
        return Err(OtherFailure);
      }
      var ok := disk.Try();
      if !ok {
        return Err(OtherFailure);
      }
      var ran := RunTool(AnswerOcsp);
      ok := disk.Try();
      r := if ran.Err? then Err(ran.error) else if ok then Ok(Lookup(disk.now.Issuer(ca).index, serial)) else Err(OtherFailure);
    }

    // ---- CRL and index ----

    method Register(rows: map<nat, RowStatus>, cert: CertPath) returns (r: Result<map<nat, RowStatus>, EngineError>)
      modifies this`calls, disk`faults
      ensures calls == old(calls) + [Invocation(RegisterCert(cert), disk.faults == old(disk.faults))]
      ensures r.Ok? ==> OnDisk(disk.now, cert) && r.value == rows[SerialAt(disk.now, cert) := V]
      ensures r.Err? ==>
                ToolError(r.error) || (r.error == DatabaseConflict && OnDisk(disk.now, cert) && SerialAt(disk.now, cert) in rows)
      ensures old(disk.faults) <= disk.faults && (r.Ok? ==> disk.faults == old(disk.faults))
      ensures r.Err? ==> old(disk.faults) < disk.faults || !OnDisk(disk.now, cert) || SerialAt(disk.now, cert) in rows
    {
      var ran := RunTool(RegisterCert(cert));
      if ran.Err? {
        return Err(ran.error);
      }
      if cert.directory !in disk.now.issued || cert.file !in disk.now.issued[cert.directory].certs {
        return Err(OtherFailure);
      }
      var next := RegisterRow(rows, disk.now.issued[cert.directory].certs[cert.file]);
      r := if next.Some? then Ok(next.value) else Err(DatabaseConflict);
    }

    method RevokeInDatabase(rows: map<nat, RowStatus>, cert: CertPath) returns (r: Result<map<nat, RowStatus>, EngineError>)
      modifies this`calls, disk`faults
      ensures calls == old(calls) + [Invocation(RevokeCert(cert), disk.faults == old(disk.faults))]
      ensures r.Ok? ==> OnDisk(disk.now, cert) && r.value == rows[SerialAt(disk.now, cert) := R]
      ensures r.Err? ==>
                ToolError(r.error) || (r.error == DatabaseConflict && OnDisk(disk.now, cert)
                                       && SerialAt(disk.now, cert) in rows && rows[SerialAt(disk.now, cert)] == R)
      ensures old(disk.faults) <= disk.faults && (r.Ok? ==> disk.faults == old(disk.faults))
      ensures r.Err? ==>
                old(disk.faults) < disk.faults || !OnDisk(disk.now, cert)
                || (SerialAt(disk.now, cert) in rows && rows[SerialAt(disk.now, cert)] == R)
    {
      var ran := RunTool(RevokeCert(cert));
      if ran.Err? {
        return Err(ran.error);
      }
      if cert.directory !in disk.now.issued || cert.file !in disk.now.issued[cert.directory].certs {
        return Err(OtherFailure);
      }
      var next := RevokeRow(rows, disk.now.issued[cert.directory].certs[cert.file]);
      r := if next.Some? then Ok(next.value) else Err(DatabaseConflict);
    }

    /** Registers every certificate: the inventory never lists a serial twice, so the database never refuses one. */
    method RegisterAll(certs: seq<CertPath>) returns (r: Result<map<nat, RowStatus>, EngineError>, ghost ran: nat)
      requires disk.Valid() && AllOnDisk(disk.now, certs) && Distinct(certs)
      modifies this`calls, disk`faults
      ensures ran <= |certs| && (r.Err? ==> ran > 0) && calls == old(calls) + Ran(Registrations(certs)[..ran], r.Ok?)
      ensures r.Ok? ==> ran == |certs| && r.value.Keys == SerialSet(disk.now, certs) && forall x | x in r.value :: r.value[x] == V
      ensures r.Err? ==> ToolError(r.error)
      ensures old(disk.faults) <= disk.faults && (r.Ok? <==> disk.faults == old(disk.faults))
      ensures r.Err? ==> LastFailed(old(calls), calls)
    {
      ReachableIsWellFormed(disk.labels);
      var rows: map<nat, RowStatus> := map[];
      ran := 0;
      for i := 0 to |certs|
        invariant ran == i && calls == old(calls) + Ran(Registrations(certs)[..i], true) && disk.faults == old(disk.faults)
        invariant rows.Keys == SerialsBefore(disk.now, certs, i) && forall x | x in rows :: rows[x] == V
      {
        SerialIsNew(disk.now, certs, i);
        var next := Register(rows, certs[i]);
        RanOneMore(Registrations(certs), i, next.Ok?);
        ran := i + 1;
        if next.Err? {
          FailedRunEndsFailed(old(calls), Registrations(certs)[..i + 1]);
          return Err(next.error), ran;
        }
        rows := next.value;
      }
      r := Ok(rows);
    }

    /** Revokes certificates whose rows are all valid: no row is revoked twice. */
    method RevokeAll(rows: map<nat, RowStatus>, certs: seq<CertPath>)
      returns (r: Result<map<nat, RowStatus>, EngineError>, ghost ran: nat)
      requires disk.Valid() && AllOnDisk(disk.now, certs) && Distinct(certs)
      requires SerialSet(disk.now, certs) <= rows.Keys && forall x | x in rows :: rows[x] == V
      modifies this`calls, disk`faults
      ensures ran <= |certs| && (r.Err? ==> ran > 0) && calls == old(calls) + Ran(Revocations(certs)[..ran], r.Ok?)
      ensures r.Ok? ==> ran == |certs| && r.value == Marked(rows.Keys, SerialSet(disk.now, certs))
      ensures r.Err? ==> ToolError(r.error)
      ensures old(disk.faults) <= disk.faults && (r.Ok? <==> disk.faults == old(disk.faults))
      ensures r.Err? ==> LastFailed(old(calls), calls)
    {
      ReachableIsWellFormed(disk.labels);
      var current := rows;
      ran := 0;
      for i := 0 to |certs|
        invariant ran == i && calls == old(calls) + Ran(Revocations(certs)[..i], true) && disk.faults == old(disk.faults)
        invariant current == Marked(rows.Keys, SerialsBefore(disk.now, certs, i))
      {
        SerialIsNew(disk.now, certs, i);
        MarkOneMore(rows.Keys, SerialsBefore(disk.now, certs, i), SerialAt(disk.now, certs[i]));
        var next := RevokeInDatabase(current, certs[i]);
        RanOneMore(Revocations(certs), i, next.Ok?);
        ran := i + 1;
        if next.Err? {
          FailedRunEndsFailed(old(calls), Revocations(certs)[..i + 1]);
          return Err(next.error), ran;
        }
        current := next.value;
      }
      r := Ok(current);
    }

    /** Fills the private database: all registrations, then all revocations, with the rows of the inventory as result. */
    method BuildDatabase(ca: CaKind, validCerts: seq<CertPath>, revokedCerts: seq<CertPath>, ghost target: string, ghost skipped: set<string>)
      returns (r: Result<map<nat, RowStatus>, EngineError>, ghost ran: nat)
      requires disk.Valid() && ListsInventory(disk.now, ca, validCerts, revokedCerts, target, skipped)
      modifies this`calls, disk`faults
      ensures ran <= |validCerts| + 2 * |revokedCerts|
      ensures calls == old(calls) + Ran(Plan(validCerts, revokedCerts)[..ran], r.Ok?)
      ensures r.Ok? ==> ran == |validCerts| + 2 * |revokedCerts| && r.value == Rows(disk.now.issued, KindOf(ca), target, skipped)
      ensures r.Err? ==> ToolError(r.error)
      ensures old(disk.faults) <= disk.faults && (r.Ok? <==> disk.faults == old(disk.faults))
      ensures r.Err? ==> LastFailed(old(calls), calls)
    {
      RegisteredShrinksBySkipping(disk.now.issued, KindOf(ca), target, skipped);
      var registered;
      registered, ran := RegisterAll(validCerts + revokedCerts);
      PlanBegins(validCerts, revokedCerts, ran, 0);
      if registered.Err? {
        return Err(registered.error), ran;
      }
      ghost var more;
      r, more := RevokeAll(registered.value, revokedCerts);
      PlanBegins(validCerts, revokedCerts, ran, more);
      RanBoth(Registrations(validCerts + revokedCerts)[..ran], Revocations(revokedCerts)[..more], r.Ok?);
      ran := ran + more;
    }

    /** Everything before the first rename: the rows and the CRL are produced and checked in a private directory. */
    method StageCrl(ca: CaKind, validCerts: seq<CertPath>, revokedCerts: seq<CertPath>, ghost target: string, ghost skipped: set<string>)
      returns (r: Result<StagedCrl, EngineError>, ghost ran: nat, ghost succeeded: bool)
      requires disk.Valid() && ListsInventory(disk.now, ca, validCerts, revokedCerts, target, skipped)
      modifies this`calls, disk`faults
      ensures ran <= |validCerts| + 2 * |revokedCerts| + 2 && calls == old(calls) + Ran(Plan(validCerts, revokedCerts)[..ran], succeeded)
      ensures r.Ok? ==> succeeded && ran == |validCerts| + 2 * |revokedCerts| + 2
                        && r.value == StagedCrl(Rows(disk.now.issued, KindOf(ca), target, skipped), PublishedCrl(disk.now, ca, target, skipped))
      ensures r.Err? ==> ToolError(r.error)
      ensures old(disk.faults) <= disk.faults && (r.Ok? <==> disk.faults == old(disk.faults))
      ensures r == Err(TimedOut) ==> LastFailed(old(calls), calls)
      ensures r.Ok? ==> CompleteCalls(calls[|old(calls)|..], validCerts, revokedCerts)
    {
      ran, succeeded := 0, true;
      ghost var plan := Plan(validCerts, revokedCerts);
      var ok := disk.Try();
      if !ok {
        return Err(OtherFailure), ran, succeeded;
      }
      var number := disk.now.Issuer(ca).NextNumber();
      var built;
      built, ran := BuildDatabase(ca, validCerts, revokedCerts, target, skipped);
      succeeded := built.Ok?;
      if built.Err? {
        return Err(built.error), ran, succeeded;
      }
      var generated := RunTool(GenerateCrl);
      RanOneMore(plan, ran, generated.Ok?);
      succeeded := generated.Ok?;
      ran := ran + 1;
      if generated.Err? {
        return Err(generated.error), ran, succeeded;
      }
      var crl := GenerateFrom(built.value, number);
      var verified := RunTool(VerifyCrl);
      RanOneMore(plan, ran, verified.Ok?);
      succeeded := verified.Ok?;
      ran := ran + 1;
      ok := disk.Try();
      if verified.Err? || !ok {
        return Err(if verified.Err? then verified.error else OtherFailure), ran, succeeded;
      }
      PlanIsComplete(validCerts, revokedCerts);
      assert plan[..ran] == plan;
      RestOfCalls(old(calls), Ran(plan, true));
      GeneratedListsRevoked(disk.now.issued, KindOf(ca), target, skipped, number);
      r := Ok(StagedCrl(built.value, crl));
    }

    /** The renames of a publication, in their order: the CRL, the index, the number. A failure stops in between. */
    method ReplaceFiles(ca: CaKind, staged: StagedCrl, ghost target: string, ghost skipped: set<string>)
      returns (r: Result<(), EngineError>, ghost published: nat)
      requires disk.Valid()
      requires staged == StagedCrl(Rows(disk.now.issued, KindOf(ca), target, skipped), PublishedCrl(disk.now, ca, target, skipped))
      modifies disk
      ensures disk.Valid()
      ensures published <= 3 && disk.labels == old(disk.labels) + Publication(ca, target, skipped)[..published]
      ensures r.Ok? ==> published == 3
      ensures r.Err? ==> r.error == OtherFailure
      ensures disk.now == old(disk.now).WithIssuer(ca, disk.now.Issuer(ca))
      ensures published == 0 ==> disk.now == old(disk.now)
      ensures published == 1 ==> disk.now.Issuer(ca) == old(disk.now.Issuer(ca)).(crl := Some(staged.crl))
      ensures published == 2 ==> disk.now.Issuer(ca) == old(disk.now.Issuer(ca)).(crl := Some(staged.crl), index := staged.rows)
      ensures published == 3 ==> disk.now.Issuer(ca) == IssuerFiles(staged.rows, Some(staged.crl.number + 1), Some(staged.crl))
      ensures old(disk.faults) <= disk.faults && (r.Ok? <==> disk.faults == old(disk.faults))
    {
      ghost var steps := Publication(ca, target, skipped);
      var files := disk.now.Issuer(ca);
      published := 0;
      disk.Commit(disk.now.WithIssuer(ca, files.(crl := Some(staged.crl))), steps[0]);
      published := 1;
      var ok := disk.Try();
      if !ok {
        return Err(OtherFailure), published;
      }
      disk.Commit(disk.now.WithIssuer(ca, files.(crl := Some(staged.crl), index := staged.rows)), steps[1]);
      published := 2;
      ok := disk.Try();
      if !ok {
        return Err(OtherFailure), published;
      }
      disk.Commit(disk.now.WithIssuer(ca, IssuerFiles(staged.rows, Some(staged.crl.number + 1), Some(staged.crl))), steps[2]);
      published := 3;
      ok := disk.Try();
      r := if ok then Ok(()) else Err(OtherFailure);
    }

    /**
     * Staged publication. A failure before the first rename leaves every published file as it was; afterwards the
     * CRL, the index and the number are replaced in this order, and a failure stops in between.
     */
    method PublishCrl(ca: CaKind, validCerts: seq<CertPath>, revokedCerts: seq<CertPath>, ghost target: string, ghost skipped: set<string>)
      returns (r: Result<(), EngineError>, ghost ran: nat, ghost succeeded: bool, ghost published: nat)
      requires disk.Valid() && ListsInventory(disk.now, ca, validCerts, revokedCerts, target, skipped)
      modifies this`calls, disk
      ensures disk.Valid()
      ensures ran <= |validCerts| + 2 * |revokedCerts| + 2 && calls == old(calls) + Ran(Plan(validCerts, revokedCerts)[..ran], succeeded)
      ensures published <= 3 && disk.labels == old(disk.labels) + Publication(ca, target, skipped)[..published]
      ensures published > 0 ==> succeeded && CompleteCalls(calls[|old(calls)|..], validCerts, revokedCerts)
      ensures (exists i :: |old(calls)| <= i < |calls| && !calls[i].ok) ==> published == 0
      ensures published == 0 ==> disk.now == old(disk.now)
      ensures r.Ok? ==> published == 3
      ensures r.Err? ==> ToolError(r.error)
      ensures disk.now == old(disk.now).WithIssuer(ca, disk.now.Issuer(ca))
      ensures published == 1 ==>
                disk.now.Issuer(ca) == old(disk.now.Issuer(ca)).(crl := Some(PublishedCrl(old(disk.now), ca, target, skipped)))
      ensures published == 2 ==>
                disk.now.Issuer(ca) == IssuerFiles(Rows(disk.now.issued, KindOf(ca), target, skipped), old(disk.now.Issuer(ca).crlNumber),
                                                   Some(PublishedCrl(old(disk.now), ca, target, skipped)))
      ensures published == 3 ==>
                disk.now.Issuer(ca) == IssuerFiles(Rows(disk.now.issued, KindOf(ca), target, skipped),
                                                   Some(old(disk.now.Issuer(ca).NextNumber()) + 1),
                                                   Some(PublishedCrl(old(disk.now), ca, target, skipped)))
      ensures old(disk.faults) <= disk.faults && (r.Ok? <==> disk.faults == old(disk.faults))
      ensures r == Err(TimedOut) ==> LastFailed(old(calls), calls)
    {
      published := 0;
      var staged;
      staged, ran, succeeded := StageCrl(ca, validCerts, revokedCerts, target, skipped);
      if staged.Err? {
        return Err(staged.error), ran, succeeded, published;
      }
      var ok := disk.Try();
      if !ok {
        return Err(OtherFailure), ran, succeeded, published;
      }
      r, published := ReplaceFiles(ca, staged.value, target, skipped);
    }
  }

  /** Serials from the counter on are unused, also after staging an empty directory and taking serials. */
  lemma NoSerialAbove(s: Durable, t: Durable)
    requires SerialsOk(s)
    requires forall d, f | d in t.issued && f in t.issued[d].certs :: d in s.issued && t.issued[d] == s.issued[d]
    ensures forall x | s.nextSerial <= x :: !UsedSerial(t, x)
  {
  }

  lemma SignIsEnabled(s: Durable, temp: string, commands: seq<Command>, i: nat, low: nat)
    requires Building(s, temp, commands, low) && i < |commands| && commands[i].Sign?
    ensures Enabled(Built(s, temp, commands[..i]), WriteCert(temp, commands[i].file, commands[i].serial))
  {
    var t := Built(s, temp, commands[..i]);
    forall f | f in t.issued[temp].certs
      ensures f != commands[i].file && t.issued[temp].certs[f] != commands[i].serial
    {
      WrittenComesFromSigns(commands[..i], f);
    }
    forall d, f | d in t.issued && f in t.issued[d].certs
      ensures t.issued[d].certs[f] != commands[i].serial
    {
      if d != temp {
        assert UsedSerial(s, t.issued[d].certs[f]);
      }
    }
  }

  /** The generated CRL lists exactly the revoked serials of the inventory. */
  lemma GeneratedListsRevoked(issued: map<string, Directory>, kind: BundleKind, target: string, skipped: set<string>, number: nat)
    ensures GenerateFrom(Rows(issued, kind, target, skipped), number) == Crl(number, RevokedSerials(issued, kind, target, skipped))
  {
    RegisteredShrinksBySkipping(issued, kind, target, skipped);
  }
}
