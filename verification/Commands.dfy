/** The calls of the cryptographic tool: what a publication and an issuance give it to do, in which order. */
module Commands {
  import opened Inventory

  datatype CertPath = CertPath(directory: string, file: string)

  /** The commands given to the cryptographic tool. */
  datatype Command =
    | RegisterCert(cert: CertPath)
    | RevokeCert(cert: CertPath)
    | GenerateCrl
    | VerifyCrl
    | GenerateKey(stem: string)
    | MakeRequest(stem: string)
    | Sign(file: string, serial: nat)
    | VerifyCert(file: string)
    | AnswerOcsp

  /** One call of the tool and whether it succeeded. */
  datatype Invocation = Invocation(command: Command, ok: bool)

  /** The record of commands run in order: all of them succeeded, except the last one of a run that failed. */
  function Ran(commands: seq<Command>, succeeded: bool): seq<Invocation> {
    seq(|commands|, i requires 0 <= i < |commands| => Invocation(commands[i], succeeded || i + 1 < |commands|))
  }

  lemma RanOneMore(commands: seq<Command>, n: nat, succeeded: bool)
    requires n < |commands|
    ensures Ran(commands[..n], true) + [Invocation(commands[n], succeeded)] == Ran(commands[..n + 1], succeeded)
  {
  }

  lemma RanBoth(xs: seq<Command>, ys: seq<Command>, succeeded: bool)
    requires ys != [] || succeeded
    ensures Ran(xs, true) + Ran(ys, succeeded) == Ran(xs + ys, succeeded)
  {
  }

  /** What continues a record is its rest. */
  lemma RestOfCalls(before: seq<Invocation>, made: seq<Invocation>)
    ensures (before + made)[|before|..] == made
  {
  }

  /** A tool call was made since then, and the last one failed. */
  ghost predicate LastFailed(before: seq<Invocation>, after: seq<Invocation>) {
    |before| < |after| && !after[|after| - 1].ok
  }

  lemma FailedRunEndsFailed(before: seq<Invocation>, commands: seq<Command>)
    requires commands != []
    ensures LastFailed(before, before + Ran(commands, false))
  {
  }

  ghost predicate Distinct<T>(xs: seq<T>) {
    forall i, j | 0 <= i < j < |xs| :: xs[i] != xs[j]
  }

  // ---- A publication ----

  /** The commands of one publication: all registrations, then all revocations, then the CRL and its check. */
  function Plan(valid: seq<CertPath>, revoked: seq<CertPath>): seq<Command> {
    Registrations(valid + revoked) + Revocations(revoked) + [GenerateCrl, VerifyCrl]
  }

  function Registrations(certs: seq<CertPath>): seq<Command> {
    seq(|certs|, i requires 0 <= i < |certs| => RegisterCert(certs[i]))
  }

  function Revocations(certs: seq<CertPath>): seq<Command> {
    seq(|certs|, i requires 0 <= i < |certs| => RevokeCert(certs[i]))
  }

  lemma PlanBegins(valid: seq<CertPath>, revoked: seq<CertPath>, registered: nat, more: nat)
    requires registered <= |valid| + |revoked| && more <= |revoked|
    requires more > 0 ==> registered == |valid| + |revoked|
    ensures Plan(valid, revoked)[..registered + more] ==
            Registrations(valid + revoked)[..registered] + Revocations(revoked)[..more]
  {
  }

  /**
   * The calls of a publication that reached its first rename: all succeeded, every certificate was registered once, then
   * every revoked one was revoked once, and then the CRL was generated and, last, checked.
   */
  ghost predicate CompleteCalls(made: seq<Invocation>, valid: seq<CertPath>, revoked: seq<CertPath>) {
    && |made| == |valid| + 2 * |revoked| + 2
    && (forall i | 0 <= i < |made| :: made[i].ok)
    && (forall i | 0 <= i < |made| - 2 :: made[i].command.RegisterCert? || made[i].command.RevokeCert?)
    && made[|made| - 2] == Invocation(GenerateCrl, true) && made[|made| - 1] == Invocation(VerifyCrl, true)
    && (forall i, j | 0 <= i < |made| && 0 <= j < |made| && made[i].command.RegisterCert? && made[j].command.RevokeCert? :: i < j)
    && (forall p: CertPath :: multiset(made)[Invocation(RegisterCert(p), true)] == if p in valid + revoked then 1 else 0)
    && (forall p: CertPath :: multiset(made)[Invocation(RevokeCert(p), true)] == if p in revoked then 1 else 0)
  }

  /** Each of distinct commands is run once. */
  lemma {:induction false} RanOnce(commands: seq<Command>, command: Command)
    requires Distinct(commands)
    ensures multiset(Ran(commands, true))[Invocation(command, true)] == if command in commands then 1 else 0
  {
    if commands != [] {
      var n := |commands| - 1;
      RanOnce(commands[..n], command);
      RanBoth(commands[..n], [commands[n]], true);
      assert commands == commands[..n] + [commands[n]];
      assert Ran([commands[n]], true) == [Invocation(commands[n], true)];
    }
  }

  lemma PlanAt(valid: seq<CertPath>, revoked: seq<CertPath>, i: nat)
    requires i < |valid| + 2 * |revoked| + 2
    ensures var n, m := |valid| + |revoked|, |revoked|; var plan := Plan(valid, revoked);
            |plan| == n + m + 2 && plan[i] == if i < n then RegisterCert((valid + revoked)[i])
                                              else if i < n + m then RevokeCert(revoked[i - n])
                                              else if i == n + m then GenerateCrl else VerifyCrl
  {
  }

  lemma PlanIsDistinct(valid: seq<CertPath>, revoked: seq<CertPath>)
    requires Distinct(valid + revoked) && Distinct(revoked)
    ensures Distinct(Plan(valid, revoked))
  {
    var plan := Plan(valid, revoked);
    forall i, j | 0 <= i < j < |plan|
      ensures plan[i] != plan[j]
    {
      PlanAt(valid, revoked, i);
      PlanAt(valid, revoked, j);
    }
  }

  lemma PlanHolds(valid: seq<CertPath>, revoked: seq<CertPath>, p: CertPath)
    ensures RegisterCert(p) in Plan(valid, revoked) <==> p in valid + revoked
    ensures RevokeCert(p) in Plan(valid, revoked) <==> p in revoked
  {
    var all, plan := valid + revoked, Plan(valid, revoked);
    forall i | 0 <= i < |plan|
      ensures plan[i] == RegisterCert(p) ==> p in all
      ensures plan[i] == RevokeCert(p) ==> p in revoked
    {
      PlanAt(valid, revoked, i);
    }
    if p in all {
      var i :| 0 <= i < |all| && all[i] == p;
      PlanAt(valid, revoked, i);
    }
    if p in revoked {
      var i :| 0 <= i < |revoked| && revoked[i] == p;
      PlanAt(valid, revoked, |all| + i);
    }
  }

  /** A publication whose commands all succeeded made exactly these calls. */
  lemma PlanIsComplete(valid: seq<CertPath>, revoked: seq<CertPath>)
    requires Distinct(valid + revoked) && Distinct(revoked)
    ensures CompleteCalls(Ran(Plan(valid, revoked), true), valid, revoked)
  {
    var made := Ran(Plan(valid, revoked), true);
    PlanIsDistinct(valid, revoked);
    forall i | 0 <= i < |valid| + 2 * |revoked| + 2
      ensures i < |made| && made[i] == Invocation(Plan(valid, revoked)[i], true)
    {
      PlanAt(valid, revoked, i);
    }
    forall i | 0 <= i < |made|
      ensures made[i].command.RegisterCert? <==> i < |valid| + |revoked|
      ensures made[i].command.RevokeCert? <==> |valid| + |revoked| <= i < |made| - 2
    {
      PlanAt(valid, revoked, i);
    }
    PlanAt(valid, revoked, |made| - 2);
    PlanAt(valid, revoked, |made| - 1);
    forall p: CertPath
      ensures multiset(made)[Invocation(RegisterCert(p), true)] == if p in valid + revoked then 1 else 0
      ensures multiset(made)[Invocation(RevokeCert(p), true)] == if p in revoked then 1 else 0
    {
      PlanHolds(valid, revoked, p);
      RanOnce(Plan(valid, revoked), RegisterCert(p));
      RanOnce(Plan(valid, revoked), RevokeCert(p));
    }
  }

  // ---- An issuance ----

  /** The key and the request of a certificate, and the certificate signed from it. */
  function Certify(stem: string, file: string, serial: nat): seq<Command> {
    [GenerateKey(stem), MakeRequest(stem), Sign(file, serial)]
  }

  function RsaCommands(serial: nat): seq<Command> {
    Certify(RSA_STEM, RSA_CERT, serial) + [VerifyCert(RSA_CERT)]
  }

  function TlcpCommands(signSerial: nat, encSerial: nat): seq<Command> {
    Certify(SIGN_STEM, SIGN_CERT, signSerial) + Certify(ENC_STEM, ENC_CERT, encSerial) + [VerifyCert(SIGN_CERT), VerifyCert(ENC_CERT)]
  }

  /** Call i signed this certificate from the request of a key made for it, and call j checked it later. */
  ghost predicate CertifiedAt(made: seq<Invocation>, file: string, serial: nat, i: nat, j: nat) {
    && 2 <= i < j < |made|
    && made[i] == Invocation(Sign(file, serial), true) && made[j] == Invocation(VerifyCert(file), true)
    && exists stem :: made[i - 2] == Invocation(GenerateKey(stem), true) && made[i - 1] == Invocation(MakeRequest(stem), true)
                      && file == stem + ".crt"
  }

  /** All calls succeeded, and every certificate was signed from its own key and checked afterwards. */
  ghost predicate AllCertified(made: seq<Invocation>, certs: map<string, nat>) {
    && (forall i | 0 <= i < |made| :: made[i].ok)
    && forall file | file in certs :: exists i: nat, j: nat :: CertifiedAt(made, file, certs[file], i, j)
  }

  /** This holds of the calls made since then. */
  ghost predicate CertifiedSince(before: seq<Invocation>, after: seq<Invocation>, certs: map<string, nat>) {
    |before| <= |after| && AllCertified(after[|before|..], certs)
  }

  lemma RsaCertified(before: seq<Invocation>, certs: map<string, nat>)
    requires HasCertsOf(certs, Rsa)
    ensures CertifiedSince(before, before + Ran(RsaCommands(certs[RSA_CERT]), true), certs)
  {
    var serial := certs[RSA_CERT];
    var made := Ran(RsaCommands(serial), true);
    RestOfCalls(before, made);
    assert made[0].command == GenerateKey(RSA_STEM) && made[1].command == MakeRequest(RSA_STEM);
    assert CertifiedAt(made, RSA_CERT, serial, 2, 3);
  }

  lemma TlcpCertified(before: seq<Invocation>, certs: map<string, nat>)
    requires HasCertsOf(certs, Tlcp)
    ensures CertifiedSince(before, before + Ran(TlcpCommands(certs[SIGN_CERT], certs[ENC_CERT]), true), certs)
  {
    var signSerial, encSerial := certs[SIGN_CERT], certs[ENC_CERT];
    var made := Ran(TlcpCommands(signSerial, encSerial), true);
    RestOfCalls(before, made);
    assert made[0].command == GenerateKey(SIGN_STEM) && made[1].command == MakeRequest(SIGN_STEM);
    assert made[3].command == GenerateKey(ENC_STEM) && made[4].command == MakeRequest(ENC_STEM);
    assert CertifiedAt(made, SIGN_CERT, signSerial, 2, 6);
    assert CertifiedAt(made, ENC_CERT, encSerial, 5, 7);
  }
}
