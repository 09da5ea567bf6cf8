/** The certificate extension configuration: its printer, and a reader of the format that takes it apart again. */
module ExtensionConfig {
  import opened Basics
  import opened Text
  import opened Requests

  datatype CertificateKind = RsaServer | TlcpSign | TlcpEnc | OtherKind

  const DIGITAL_SIGNATURE := "digitalSignature"
  const KEY_ENCIPHERMENT := "keyEncipherment"
  const DATA_ENCIPHERMENT := "dataEncipherment"
  const KEY_AGREEMENT := "keyAgreement"

  function KeyUsage(kind: CertificateKind): string {
    match kind
    case RsaServer => DIGITAL_SIGNATURE + "," + KEY_ENCIPHERMENT
    case TlcpSign => DIGITAL_SIGNATURE
    case TlcpEnc => KEY_ENCIPHERMENT + "," + DATA_ENCIPHERMENT + "," + KEY_AGREEMENT
    case OtherKind => ""
  }

  // ---- The format ----

  /** A line of the format: a section header, an assignment or an empty line. */
  datatype Item = Section(name: string) | Assign(key: string, value: string) | Blank

  function Render(item: Item): string {
    match item
    case Section(name) => "[" + name + "]"
    case Assign(key, value) => key + "=" + value
    case Blank => ""
  }

  function RenderAll(items: seq<Item>): seq<string> {
    seq(|items|, i requires 0 <= i < |items| => Render(items[i]))
  }

  datatype Assignment = Assignment(section: string, key: string, value: string)

  /** Reads lines in order: the assignments with their sections, or nothing when a line is neither kind. */
  function ParseLines(lines: seq<string>, section: string): Option<seq<Assignment>> {
    if lines == [] then Some([])
    else
      var line := lines[0];
      if line == "" then ParseLines(lines[1..], section)
      else if line[0] == '[' && line[|line| - 1] == ']' && |line| >= 2 then ParseLines(lines[1..], line[1..|line| - 1])
      else
        var i := IndexOf(line, '=');
        if i == |line| then None
        else
          var rest := ParseLines(lines[1..], section);
          if rest.None? then None else Some([Assignment(section, line[..i], line[i + 1..])] + rest.value)
  }

  function Parse(text: string): Option<seq<Assignment>> {
    ParseLines(Split(text, '\n'), "")
  }

  /** The items that survive printing: no line feed, and a key that neither holds "=" nor opens a section. */
  predicate PrintableItem(item: Item) {
    match item
    case Section(name) => '\n' !in name
    case Assign(key, value) => key != "" && key[0] != '[' && '=' !in key && '\n' !in key && '\n' !in value
    case Blank => true
  }

  predicate Printable(items: seq<Item>) {
    forall i | 0 <= i < |items| :: PrintableItem(items[i])
  }

  function Meaning(items: seq<Item>, section: string): seq<Assignment> {
    if items == [] then []
    else
      match items[0]
      case Section(name) => Meaning(items[1..], name)
      case Assign(key, value) => [Assignment(section, key, value)] + Meaning(items[1..], section)
      case Blank => Meaning(items[1..], section)
  }

  lemma ParseOneAssign(key: string, value: string, rest: seq<string>, section: string)
    requires PrintableItem(Assign(key, value)) && ParseLines(rest, section).Some?
    ensures ParseLines([key + "=" + value] + rest, section) ==
            Some([Assignment(section, key, value)] + ParseLines(rest, section).value)
  {
    var line := key + "=" + value;
    IndexOfAssign(key, value);
    assert line[..|key|] == key && line[|key| + 1..] == value;
    assert line[0] == key[0];
    assert ([line] + rest)[1..] == rest;
  }

  lemma ParseOneSection(name: string, rest: seq<string>, section: string)
    ensures ParseLines(["[" + name + "]"] + rest, section) == ParseLines(rest, name)
  {
    var line := "[" + name + "]";
    assert line[1..|line| - 1] == name;
    assert ([line] + rest)[1..] == rest;
  }

  lemma {:induction false} ParseRendered(items: seq<Item>, section: string)
    requires Printable(items)
    ensures ParseLines(RenderAll(items) + [""], section) == Some(Meaning(items, section))
  {
    var lines := RenderAll(items) + [""];
    if items == [] {
      assert lines == [""] && lines[1..] == [];
    } else {
      var rest := RenderAll(items[1..]) + [""];
      assert lines == [Render(items[0])] + rest;
      assert PrintableItem(items[0]);
      match items[0]
      case Section(name) =>
        ParseRendered(items[1..], name);
        ParseOneSection(name, rest, section);
      case Assign(key, value) =>
        ParseRendered(items[1..], section);
        ParseOneAssign(key, value, rest, section);
      case Blank =>
        ParseRendered(items[1..], section);
        assert lines[1..] == rest;
    }
  }

  /** Whatever printable items are printed, reading gives back their assignments: no line is lost, added or split. */
  lemma FormatRoundTrip(items: seq<Item>)
    requires Printable(items)
    ensures Parse(Terminated(RenderAll(items))) == Some(Meaning(items, ""))
  {
    var lines := RenderAll(items) + [""];
    TerminatedIsJoin(RenderAll(items));
    forall i | 0 <= i < |lines|
      ensures '\n' !in lines[i]
    {
      if i < |items| {
        assert PrintableItem(items[i]);
      }
    }
    SplitOfJoin(lines, '\n');
    ParseRendered(items, "");
  }

  // ---- Numbers ----

  function Digit(d: nat): char
    requires d < 10
  {
    "0123456789"[d]
  }

  function Decimal(n: nat): (s: string)
    ensures s != ""
  {
    if n < 10 then [Digit(n)] else Decimal(n / 10) + [Digit(n % 10)]
  }

  function DigitValue(c: char): nat {
    if c < '0' then 0 else c as nat - '0' as nat
  }

  function DecimalValue(s: string): nat {
    if s == "" then 0 else 10 * DecimalValue(s[..|s| - 1]) + DigitValue(s[|s| - 1])
  }

  lemma {:induction false} ValueOfDecimal(n: nat)
    ensures DecimalValue(Decimal(n)) == n
    ensures forall i | 0 <= i < |Decimal(n)| :: '0' <= Decimal(n)[i] <= '9'
  {
    if n < 10 {
      assert [Digit(n)][..0] == "";
    } else {
      ValueOfDecimal(n / 10);
      var s := Decimal(n);
      assert s[..|s| - 1] == Decimal(n / 10);
    }
  }

  lemma DecimalIsInjective(a: nat, b: nat)
    requires Decimal(a) == Decimal(b)
    ensures a == b
  {
    ValueOfDecimal(a);
    ValueOfDecimal(b);
  }

  // ---- The configuration ----

  const DNS := "DNS."
  const IP := "IP."
  const REQ := "req"
  const REQ_DN := "req_dn"
  const SERVER_CERT := "server_cert"
  const ALT_NAMES := "alt_names"

  type Pairs = seq<(string, string)>

  const REQ_PAIRS: Pairs := [("distinguished_name", "req_dn"), ("prompt", "no")]

  const IDENTITY_PAIRS: Pairs :=
    [("basicConstraints", "critical,CA:FALSE"), ("subjectKeyIdentifier", "hash"), ("authorityKeyIdentifier", "keyid,issuer")]

  function UsagePairs(kind: CertificateKind): Pairs {
    [("keyUsage", "critical," + KeyUsage(kind)), ("extendedKeyUsage", "serverAuth")]
  }

  function ServerPairs(kind: CertificateKind): Pairs {
    IDENTITY_PAIRS + UsagePairs(kind)
  }

  const ALT_PAIRS: Pairs := [("subjectAltName", "@alt_names")]

  function Numbered(prefix: string, values: seq<string>): Pairs {
    seq(|values|, i requires 0 <= i < |values| => (prefix + Decimal(i + 1), values[i]))
  }

  function AssignAll(pairs: Pairs): seq<Item> {
    seq(|pairs|, i requires 0 <= i < |pairs| => Assign(pairs[i].0, pairs[i].1))
  }

  function AssignedIn(section: string, pairs: Pairs): seq<Assignment> {
    seq(|pairs|, i requires 0 <= i < |pairs| => Assignment(section, pairs[i].0, pairs[i].1))
  }

  predicate NoAlternatives(req: Request) {
    |req.dnsNames| + |req.addresses| == 0
  }

  function AltItems(req: Request): seq<Item> {
    if NoAlternatives(req) then []
    else AssignAll(ALT_PAIRS) + ([Blank] + ([Section(ALT_NAMES)] + (AssignAll(Numbered(DNS, req.dnsNames)) + AssignAll(Numbered(IP, req.addresses)))))
  }

  function ServerItems(req: Request, kind: CertificateKind): seq<Item> {
    [Section(SERVER_CERT)] + (AssignAll(ServerPairs(kind)) + AltItems(req))
  }

  /** The printed lines of a configuration. */
  function ConfigItems(req: Request, kind: CertificateKind): seq<Item> {
    [Section(REQ)] + (AssignAll(REQ_PAIRS) + ([Blank] + ([Section(REQ_DN)] + ([Blank] + ServerItems(req, kind)))))
  }

  /** The text under construction and, for the proof only, the items written so far. */
  class Builder {
    var text: string
    ghost var items: seq<Item>

    ghost predicate Valid()
      reads this
    {
      text == Terminated(RenderAll(items))
    }

    constructor ()
      ensures Valid() && items == []
    {
      text := "";
      items := [];
    }

    method WriteLine(item: Item)
      requires Valid()
      modifies this
      ensures Valid() && items == old(items) + [item]
    {
      var lines := RenderAll(items + [item]);
      assert lines[..|lines| - 1] == RenderAll(items);
      text := text + Render(item) + "\n";
      items := items + [item];
    }
  }

  method WriteAll(config: Builder, pairs: Pairs)
    requires config.Valid()
    modifies config
    ensures config.Valid() && config.items == old(config.items) + AssignAll(pairs)
  {
    for i := 0 to |pairs|
      invariant config.Valid() && config.items == old(config.items) + AssignAll(pairs)[..i]
    {
      config.WriteLine(Assign(pairs[i].0, pairs[i].1));
    }
  }

  /** Prints numbered values from one on. */
  method WriteNumbered(config: Builder, prefix: string, values: seq<string>)
    requires config.Valid()
    modifies config
    ensures config.Valid() && config.items == old(config.items) + AssignAll(Numbered(prefix, values))
  {
    ghost var items := AssignAll(Numbered(prefix, values));
    for i := 0 to |values|
      invariant config.Valid() && config.items == old(config.items) + items[..i]
    {
      assert items[..i + 1] == items[..i] + [Assign(prefix + Decimal(i + 1), values[i])];
      config.WriteLine(Assign(prefix + Decimal(i + 1), values[i]));
    }
  }

  lemma Nested<T>(a: seq<T>, b: seq<T>, c: seq<T>, d: seq<T>, e: seq<T>, f: seq<T>)
    ensures a + b + c + d + e + f == a + (b + (c + (d + (e + f))))
  {
  }

  method WriteAlternatives(config: Builder, req: Request)
    requires config.Valid()
    modifies config
    ensures config.Valid() && config.items == old(config.items) + AltItems(req)
  {
    if |req.dnsNames| + |req.addresses| > 0 {
      WriteAll(config, ALT_PAIRS);
      config.WriteLine(Blank);
      config.WriteLine(Section(ALT_NAMES));
      WriteNumbered(config, DNS, req.dnsNames);
      WriteNumbered(config, IP, req.addresses);
      Nested(old(config.items), AssignAll(ALT_PAIRS), [Blank], [Section(ALT_NAMES)], AssignAll(Numbered(DNS, req.dnsNames)),
             AssignAll(Numbered(IP, req.addresses)));
    }
  }

  method WriteServer(config: Builder, req: Request, kind: CertificateKind)
    requires config.Valid()
    modifies config
    ensures config.Valid() && config.items == old(config.items) + ServerItems(req, kind)
  {
    config.WriteLine(Section(SERVER_CERT));
    WriteAll(config, ServerPairs(kind));
    WriteAlternatives(config, req);
    Nested(old(config.items), [Section(SERVER_CERT)], AssignAll(ServerPairs(kind)), AltItems(req), [], []);
    assert AltItems(req) + ([] + []) == AltItems(req);
  }

  // ---- What is read back ----

  lemma {:induction false} MeaningOfAssigns(pairs: Pairs, rest: seq<Item>, section: string)
    ensures Meaning(AssignAll(pairs) + rest, section) == AssignedIn(section, pairs) + Meaning(rest, section)
  {
    if pairs == [] {
      assert AssignAll(pairs) + rest == rest;
    } else {
      var items := AssignAll(pairs) + rest;
      assert items[1..] == AssignAll(pairs[1..]) + rest;
      MeaningOfAssigns(pairs[1..], rest, section);
      assert AssignedIn(section, pairs) == [Assignment(section, pairs[0].0, pairs[0].1)] + AssignedIn(section, pairs[1..]);
    }
  }

  lemma MeaningOfSection(name: string, rest: seq<Item>, section: string)
    ensures Meaning([Section(name)] + rest, section) == Meaning(rest, name)
    ensures Meaning([Blank] + rest, section) == Meaning(rest, section)
  {
    assert ([Section(name)] + rest)[1..] == rest && ([Blank] + rest)[1..] == rest;
  }

  function AlternativeNames(req: Request): seq<Assignment> {
    AssignedIn(ALT_NAMES, Numbered(DNS, req.dnsNames)) + AssignedIn(ALT_NAMES, Numbered(IP, req.addresses))
  }

  function AltAssignments(req: Request): seq<Assignment> {
    AssignedIn(SERVER_CERT, ALT_PAIRS) + AlternativeNames(req)
  }

  /** All the assignments of a configuration, and no others. */
  function Assignments(req: Request, kind: CertificateKind): seq<Assignment> {
    AssignedIn(REQ, REQ_PAIRS) + (AssignedIn(SERVER_CERT, ServerPairs(kind)) + if NoAlternatives(req) then [] else AltAssignments(req))
  }

  lemma MeaningOfAlternatives(req: Request)
    ensures Meaning(AltItems(req), SERVER_CERT) == if NoAlternatives(req) then [] else AltAssignments(req)
  {
    if !NoAlternatives(req) {
      var ips := AssignAll(Numbered(IP, req.addresses));
      var names := AssignAll(Numbered(DNS, req.dnsNames)) + ips;
      assert ips + [] == ips;
      MeaningOfAssigns(Numbered(IP, req.addresses), [], ALT_NAMES);
      MeaningOfAssigns(Numbered(DNS, req.dnsNames), ips, ALT_NAMES);
      MeaningOfSection(ALT_NAMES, names, SERVER_CERT);
      MeaningOfSection(ALT_NAMES, [Section(ALT_NAMES)] + names, SERVER_CERT);
      MeaningOfAssigns(ALT_PAIRS, [Blank] + ([Section(ALT_NAMES)] + names), SERVER_CERT);
      assert AssignedIn(ALT_NAMES, Numbered(IP, req.addresses)) + [] == AssignedIn(ALT_NAMES, Numbered(IP, req.addresses));
    }
  }

  lemma MeaningOfConfig(req: Request, kind: CertificateKind)
    ensures Meaning(ConfigItems(req, kind), "") == Assignments(req, kind)
  {
    var server := ServerItems(req, kind);
    MeaningOfAlternatives(req);
    MeaningOfAssigns(ServerPairs(kind), AltItems(req), SERVER_CERT);
    MeaningOfSection(SERVER_CERT, AssignAll(ServerPairs(kind)) + AltItems(req), REQ_DN);
    MeaningOfSection(REQ_DN, server, REQ_DN);
    MeaningOfSection(REQ_DN, [Blank] + server, REQ);
    MeaningOfSection(REQ_DN, [Section(REQ_DN)] + ([Blank] + server), REQ);
    var afterReq := [Blank] + ([Section(REQ_DN)] + ([Blank] + server));
    MeaningOfAssigns(REQ_PAIRS, afterReq, REQ);
    MeaningOfSection(REQ, AssignAll(REQ_PAIRS) + afterReq, "");
  }

  lemma PrintablePairOf(key: string, value: string)
    requires key != "" && key[0] != '[' && '=' !in key && '\n' !in key && '\n' !in value
    ensures PrintableItem(Assign(key, value))
  {
  }

  lemma ReqPrintable()
    ensures Printable(AssignAll(REQ_PAIRS)) && Printable(AssignAll(ALT_PAIRS))
  {
    PrintablePairOf("distinguished_name", "req_dn");
    PrintablePairOf("prompt", "no");
    PrintablePairOf("subjectAltName", "@alt_names");
  }

  lemma UsageWordsArePlain()
    ensures '\n' !in DIGITAL_SIGNATURE && '\n' !in KEY_ENCIPHERMENT && '\n' !in DATA_ENCIPHERMENT && '\n' !in KEY_AGREEMENT
  {
  }

  lemma UsagePrintable(kind: CertificateKind)
    ensures Printable(AssignAll(UsagePairs(kind)))
  {
    UsageWordsArePlain();
    assert '\n' !in KeyUsage(kind);
    PrintablePairOf("keyUsage", "critical," + KeyUsage(kind));
    PrintablePairOf("extendedKeyUsage", "serverAuth");
  }

  lemma ConstraintsPrintable()
    ensures PrintableItem(Assign("basicConstraints", "critical,CA:FALSE"))
  {
  }

  lemma IdentifiersPrintable()
    ensures PrintableItem(Assign("subjectKeyIdentifier", "hash"))
    ensures PrintableItem(Assign("authorityKeyIdentifier", "keyid,issuer"))
  {
    PrintablePairOf("subjectKeyIdentifier", "hash");
    PrintablePairOf("authorityKeyIdentifier", "keyid,issuer");
  }

  lemma IdentityPrintable()
    ensures Printable(AssignAll(IDENTITY_PAIRS))
  {
    ConstraintsPrintable();
    IdentifiersPrintable();
  }

  lemma ServerPrintable(kind: CertificateKind)
    ensures Printable(AssignAll(ServerPairs(kind)))
  {
    UsagePrintable(kind);
    IdentityPrintable();
    PrintableConcat(AssignAll(IDENTITY_PAIRS), AssignAll(UsagePairs(kind)));
    assert AssignAll(ServerPairs(kind)) == AssignAll(IDENTITY_PAIRS) + AssignAll(UsagePairs(kind));
  }

  lemma PrintableConcat(a: seq<Item>, b: seq<Item>)
    requires Printable(a) && Printable(b)
    ensures Printable(a + b)
  {
  }

  lemma DnsNamesArePlain(name: string)
    requires DnsName(name)
    ensures '\n' !in name
  {
    var rest := WithoutWildcard(name);
    var labels := Split(rest, '.');
    forall i | 0 <= i < |labels|
      ensures '\n' !in labels[i]
    {
      assert ValidLabel(labels[i]);
      forall k | 0 <= k < |labels[i]|
        ensures labels[i][k] != '\n'
      {
        assert LabelChar(labels[i][k]);
      }
    }
    JoinOfSplit(rest, '.');
    JoinWithout(labels, '.', '\n');
    assert name == rest || name == "*." + rest;
  }

  lemma {:induction false} JoinWithout(parts: seq<string>, sep: char, c: char)
    requires |parts| >= 1 && c != sep && forall i | 0 <= i < |parts| :: c !in parts[i]
    ensures c !in Join(parts, sep)
  {
    if |parts| > 1 {
      JoinWithout(parts[1..], sep, c);
    }
  }

  lemma NumberedPrintable(prefix: string, values: seq<string>)
    requires prefix != "" && prefix[0] != '[' && '=' !in prefix && '\n' !in prefix
    requires forall i | 0 <= i < |values| :: '\n' !in values[i]
    ensures Printable(AssignAll(Numbered(prefix, values)))
  {
    var items := AssignAll(Numbered(prefix, values));
    forall i | 0 <= i < |items|
      ensures PrintableItem(items[i])
    {
      var number := Decimal(i + 1);
      ValueOfDecimal(i + 1);
      forall k | 0 <= k < |number|
        ensures number[k] != '=' && number[k] != '\n'
      {
      }
      assert '=' !in prefix + number && '\n' !in prefix + number;
    }
  }

  lemma AltPrintable(req: Request)
    requires ValidRequest(req)
    ensures Printable(AltItems(req))
  {
    ReqPrintable();
    forall i | 0 <= i < |req.dnsNames|
      ensures '\n' !in req.dnsNames[i]
    {
      DnsNamesArePlain(req.dnsNames[i]);
    }
    NumberedPrintable(DNS, req.dnsNames);
    forall i | 0 <= i < |req.addresses|
      ensures '\n' !in req.addresses[i]
    {
      AddressIsPlain(req.addresses[i]);
    }
    NumberedPrintable(IP, req.addresses);
    var numbered := AssignAll(Numbered(DNS, req.dnsNames)) + AssignAll(Numbered(IP, req.addresses));
    PrintableConcat(AssignAll(Numbered(DNS, req.dnsNames)), AssignAll(Numbered(IP, req.addresses)));
    PrintableConcat([Section(ALT_NAMES)], numbered);
    PrintableConcat([Blank], [Section(ALT_NAMES)] + numbered);
    PrintableConcat(AssignAll(ALT_PAIRS), [Blank] + ([Section(ALT_NAMES)] + numbered));
  }

  lemma AddressIsPlain(address: string)
    requires IsAddress(address)
    ensures '\n' !in address
  {
    forall k | 0 <= k < |address|
      ensures address[k] != '\n'
    {
      assert AddressChar(address[k]);
    }
  }

  lemma ConfigPrintable(req: Request, kind: CertificateKind)
    requires ValidRequest(req)
    ensures Printable(ConfigItems(req, kind))
  {
    ReqPrintable();
    ServerPrintable(kind);
    AltPrintable(req);
    PrintableConcat(AssignAll(ServerPairs(kind)), AltItems(req));
    PrintableConcat([Section(SERVER_CERT)], AssignAll(ServerPairs(kind)) + AltItems(req));
    var server := ServerItems(req, kind);
    PrintableConcat([Blank], server);
    PrintableConcat([Section(REQ_DN)], [Blank] + server);
    PrintableConcat([Blank], [Section(REQ_DN)] + ([Blank] + server));
    PrintableConcat(AssignAll(REQ_PAIRS), [Blank] + ([Section(REQ_DN)] + ([Blank] + server)));
    PrintableConcat([Section(REQ)], AssignAll(REQ_PAIRS) + ([Blank] + ([Section(REQ_DN)] + ([Blank] + server))));
  }

  /** The values of a numbered key in a section: those of prefix1, prefix2 and so on from a first number. */
  function NumberedValues(assignments: seq<Assignment>, section: string, prefix: string, next: nat): seq<string> {
    if assignments == [] then []
    else if assignments[0].section == section && assignments[0].key == prefix + Decimal(next) then
      [assignments[0].value] + NumberedValues(assignments[1..], section, prefix, next + 1)
    else NumberedValues(assignments[1..], section, prefix, next)
  }

  lemma {:induction false} ValuesOfConcat(xs: seq<Assignment>, ys: seq<Assignment>, section: string, prefix: string, next: nat)
    ensures var first := NumberedValues(xs, section, prefix, next);
            NumberedValues(xs + ys, section, prefix, next) == first + NumberedValues(ys, section, prefix, next + |first|)
  {
    if xs == [] {
      assert xs + ys == ys;
    } else {
      assert (xs + ys)[1..] == xs[1..] + ys;
      var found := xs[0].section == section && xs[0].key == prefix + Decimal(next);
      ValuesOfConcat(xs[1..], ys, section, prefix, if found then next + 1 else next);
    }
  }

  lemma {:induction false} ValuesOfForeign(xs: seq<Assignment>, section: string, prefix: string, next: nat)
    requires forall i | 0 <= i < |xs| :: xs[i].section != section || !(prefix <= xs[i].key)
    ensures NumberedValues(xs, section, prefix, next) == []
  {
    if xs != [] {
      ValuesOfForeign(xs[1..], section, prefix, next);
    }
  }

  function NumberedFrom(prefix: string, values: seq<string>, next: nat): seq<Assignment> {
    seq(|values|, i requires 0 <= i < |values| => Assignment(ALT_NAMES, prefix + Decimal(i + next), values[i]))
  }

  lemma {:induction false} ValuesOfNumbered(prefix: string, values: seq<string>, next: nat)
    ensures NumberedValues(NumberedFrom(prefix, values, next), ALT_NAMES, prefix, next) == values
  {
    if values != [] {
      var xs := NumberedFrom(prefix, values, next);
      assert xs[1..] == NumberedFrom(prefix, values[1..], next + 1);
      ValuesOfNumbered(prefix, values[1..], next + 1);
    }
  }

  lemma SectionsDiffer()
    ensures REQ != ALT_NAMES && SERVER_CERT != ALT_NAMES
  {
    assert REQ[0] != ALT_NAMES[0] && SERVER_CERT[0] != ALT_NAMES[0];
  }

  /** The fixed part of a configuration, which no alternative name is read from. */
  function FixedAssignments(kind: CertificateKind): seq<Assignment> {
    AssignedIn(REQ, REQ_PAIRS) + AssignedIn(SERVER_CERT, ServerPairs(kind))
  }

  lemma ValuesOfPairs(prefix: string, section: string, other: string, values: seq<string>, next: nat)
    requires section == ALT_NAMES && |prefix| > 0 && |other| > 0 && prefix[0] != other[0]
    ensures NumberedValues(AssignedIn(section, Numbered(other, values)), section, prefix, next) == []
  {
    var xs := AssignedIn(section, Numbered(other, values));
    forall i | 0 <= i < |xs|
      ensures !(prefix <= xs[i].key)
    {
      assert xs[i].key[0] == other[0];
    }
    ValuesOfForeign(xs, section, prefix, next);
  }

  lemma DnsAssignments(req: Request)
    ensures AssignedIn(ALT_NAMES, Numbered(DNS, req.dnsNames)) == NumberedFrom(DNS, req.dnsNames, 1)
    ensures AssignedIn(ALT_NAMES, Numbered(IP, req.addresses)) == NumberedFrom(IP, req.addresses, 1)
  {
  }

  /** Values of the first of two lists are found in both together when the other list holds none, and likewise of the second. */
  lemma ValuesOfEither(xs: seq<Assignment>, ys: seq<Assignment>, prefix: string)
    requires forall next :: NumberedValues(ys, ALT_NAMES, prefix, next) == []
    ensures NumberedValues(xs + ys, ALT_NAMES, prefix, 1) == NumberedValues(xs, ALT_NAMES, prefix, 1)
  {
    ValuesOfConcat(xs, ys, ALT_NAMES, prefix, 1);
  }

  lemma ValuesAfterOthers(xs: seq<Assignment>, ys: seq<Assignment>, prefix: string)
    requires NumberedValues(xs, ALT_NAMES, prefix, 1) == []
    ensures NumberedValues(xs + ys, ALT_NAMES, prefix, 1) == NumberedValues(ys, ALT_NAMES, prefix, 1)
  {
    ValuesOfConcat(xs, ys, ALT_NAMES, prefix, 1);
  }

  lemma DnsValues(req: Request)
    ensures NumberedValues(AlternativeNames(req), ALT_NAMES, DNS, 1) == req.dnsNames
  {
    DnsAssignments(req);
    ValuesOfNumbered(DNS, req.dnsNames, 1);
    forall next
      ensures NumberedValues(AssignedIn(ALT_NAMES, Numbered(IP, req.addresses)), ALT_NAMES, DNS, next) == []
    {
      ValuesOfPairs(DNS, ALT_NAMES, IP, req.addresses, next);
    }
    ValuesOfEither(AssignedIn(ALT_NAMES, Numbered(DNS, req.dnsNames)), AssignedIn(ALT_NAMES, Numbered(IP, req.addresses)), DNS);
  }

  lemma AddressValues(req: Request)
    ensures NumberedValues(AlternativeNames(req), ALT_NAMES, IP, 1) == req.addresses
  {
    DnsAssignments(req);
    ValuesOfNumbered(IP, req.addresses, 1);
    ValuesOfPairs(IP, ALT_NAMES, DNS, req.dnsNames, 1);
    ValuesAfterOthers(AssignedIn(ALT_NAMES, Numbered(DNS, req.dnsNames)), AssignedIn(ALT_NAMES, Numbered(IP, req.addresses)), IP);
  }

  lemma Regroup<T>(a: seq<T>, b: seq<T>, c: seq<T>)
    ensures a + (b + c) == a + b + c
  {
  }

  lemma AssignmentsInParts(req: Request, kind: CertificateKind)
    ensures Assignments(req, kind) == FixedAssignments(kind)
                                      + if NoAlternatives(req) then [] else AltAssignments(req)
  {
    Regroup(AssignedIn(REQ, REQ_PAIRS), AssignedIn(SERVER_CERT, ServerPairs(kind)), if NoAlternatives(req) then [] else AltAssignments(req));
  }

  lemma ValuesOfConfig(req: Request, kind: CertificateKind, prefix: string)
    ensures NumberedValues(Assignments(req, kind), ALT_NAMES, prefix, 1) ==
            if NoAlternatives(req) then [] else NumberedValues(AlternativeNames(req), ALT_NAMES, prefix, 1)
  {
    AssignmentsInParts(req, kind);
    NothingInFixed(kind, prefix);
    var alt := AssignedIn(SERVER_CERT, ALT_PAIRS);
    ValuesAfterOthers(FixedAssignments(kind), [], prefix);
    ValuesAfterOthers(FixedAssignments(kind), alt + AlternativeNames(req), prefix);
    ValuesAfterOthers(alt, AlternativeNames(req), prefix);
  }

  lemma NothingInFixed(kind: CertificateKind, prefix: string)
    ensures NumberedValues(FixedAssignments(kind), ALT_NAMES, prefix, 1) == []
    ensures NumberedValues(AssignedIn(SERVER_CERT, ALT_PAIRS), ALT_NAMES, prefix, 1) == []
  {
    SectionsDiffer();
    ValuesOfForeign(FixedAssignments(kind), ALT_NAMES, prefix, 1);
    ValuesOfForeign(AssignedIn(SERVER_CERT, ALT_PAIRS), ALT_NAMES, prefix, 1);
  }

  // ---- The settings of a certificate ----

  /** The values that a section assigns to a key, in order. */
  function ValuesOf(assignments: seq<Assignment>, section: string, key: string): seq<string> {
    if assignments == [] then []
    else
      var rest := ValuesOf(assignments[1..], section, key);
      if assignments[0].section == section && assignments[0].key == key then [assignments[0].value] + rest else rest
  }

  /** The key usage of each kind. */
  ghost predicate UsageOf(kind: CertificateKind, value: string) {
    && (kind.RsaServer? ==> value == "critical," + ("digitalSignature" + "," + "keyEncipherment"))
    && (kind.TlcpSign? ==> value == "critical," + "digitalSignature")
    && (kind.TlcpEnc? ==> value == "critical," + ("keyEncipherment" + "," + "dataEncipherment" + "," + "keyAgreement"))
  }

  /** Each setting of a server certificate has one value, the alternative names are those of the request, and there is nothing else. */
  ghost predicate Carries(read: seq<Assignment>, req: Request, kind: CertificateKind) {
    && ValuesOf(read, "req", "distinguished_name") == ["req_dn"] && ValuesOf(read, "req", "prompt") == ["no"]
    && ValuesOf(read, "server_cert", "basicConstraints") == ["critical,CA:FALSE"]
    && ValuesOf(read, "server_cert", "subjectKeyIdentifier") == ["hash"]
    && ValuesOf(read, "server_cert", "authorityKeyIdentifier") == ["keyid,issuer"]
    && |ValuesOf(read, "server_cert", "keyUsage")| == 1 && UsageOf(kind, ValuesOf(read, "server_cert", "keyUsage")[0])
    && ValuesOf(read, "server_cert", "extendedKeyUsage") == ["serverAuth"]
    && ValuesOf(read, "server_cert", "subjectAltName") == (if req.dnsNames == [] && req.addresses == [] then [] else ["@alt_names"])
    && NumberedValues(read, "alt_names", "DNS.", 1) == req.dnsNames
    && NumberedValues(read, "alt_names", "IP.", 1) == req.addresses
    && |read| == 7 + |ValuesOf(read, "server_cert", "subjectAltName")| + |req.dnsNames| + |req.addresses|
  }

  function PairValues(pairs: Pairs, key: string): seq<string> {
    if pairs == [] then []
    else if pairs[0].0 == key then [pairs[0].1] + PairValues(pairs[1..], key)
    else PairValues(pairs[1..], key)
  }

  lemma {:induction false} SettingsOfConcat(xs: seq<Assignment>, ys: seq<Assignment>, section: string, key: string)
    ensures ValuesOf(xs + ys, section, key) == ValuesOf(xs, section, key) + ValuesOf(ys, section, key)
  {
    if xs == [] {
      assert xs + ys == ys;
    } else {
      assert (xs + ys)[1..] == xs[1..] + ys;
      SettingsOfConcat(xs[1..], ys, section, key);
    }
  }

  lemma {:induction false} SettingsOfPairs(home: string, pairs: Pairs, section: string, key: string)
    ensures ValuesOf(AssignedIn(home, pairs), section, key) == if home == section then PairValues(pairs, key) else []
  {
    if pairs != [] {
      assert AssignedIn(home, pairs)[1..] == AssignedIn(home, pairs[1..]);
      SettingsOfPairs(home, pairs[1..], section, key);
    }
  }

  lemma SettingsOfAlternatives(req: Request, section: string, key: string)
    requires section != ALT_NAMES
    ensures ValuesOf(AltAssignments(req), section, key) == if section == SERVER_CERT then PairValues(ALT_PAIRS, key) else []
  {
    var dns, ip := AssignedIn(ALT_NAMES, Numbered(DNS, req.dnsNames)), AssignedIn(ALT_NAMES, Numbered(IP, req.addresses));
    SettingsOfConcat(AssignedIn(SERVER_CERT, ALT_PAIRS), dns + ip, section, key);
    SettingsOfConcat(dns, ip, section, key);
    SettingsOfPairs(SERVER_CERT, ALT_PAIRS, section, key);
    SettingsOfPairs(ALT_NAMES, Numbered(DNS, req.dnsNames), section, key);
    SettingsOfPairs(ALT_NAMES, Numbered(IP, req.addresses), section, key);
  }

  /** Which pairs a section of the configuration holds. */
  lemma SettingsOfSection(req: Request, kind: CertificateKind, section: string, key: string)
    requires section == REQ || section == SERVER_CERT
    ensures ValuesOf(Assignments(req, kind), section, key) ==
            if section == REQ then PairValues(REQ_PAIRS, key)
            else PairValues(ServerPairs(kind), key) + if NoAlternatives(req) then [] else PairValues(ALT_PAIRS, key)
  {
    SectionsDiffer();
    assert REQ[2] != SERVER_CERT[2];
    var alt := if NoAlternatives(req) then [] else AltAssignments(req);
    SettingsOfConcat(AssignedIn(REQ, REQ_PAIRS), AssignedIn(SERVER_CERT, ServerPairs(kind)) + alt, section, key);
    SettingsOfConcat(AssignedIn(SERVER_CERT, ServerPairs(kind)), alt, section, key);
    SettingsOfPairs(REQ, REQ_PAIRS, section, key);
    SettingsOfPairs(SERVER_CERT, ServerPairs(kind), section, key);
    SettingsOfAlternatives(req, section, key);
  }

  lemma {:induction false} ValueOfAbsent(pairs: Pairs, key: string)
    requires forall j | 0 <= j < |pairs| :: pairs[j].0 != key
    ensures PairValues(pairs, key) == []
  {
    if pairs != [] {
      ValueOfAbsent(pairs[1..], key);
    }
  }

  lemma {:induction false} ValueOfSingle(pairs: Pairs, i: nat)
    requires i < |pairs| && forall j | 0 <= j < |pairs| && j != i :: pairs[j].0 != pairs[i].0
    ensures PairValues(pairs, pairs[i].0) == [pairs[i].1]
  {
    if i == 0 {
      ValueOfAbsent(pairs[1..], pairs[0].0);
    } else {
      ValueOfSingle(pairs[1..], i - 1);
    }
  }

  lemma ServerKeys(kind: CertificateKind)
    ensures |ServerPairs(kind)| == 5
    ensures ServerPairs(kind)[0] == ("basicConstraints", "critical,CA:FALSE")
    ensures ServerPairs(kind)[1] == ("subjectKeyIdentifier", "hash")
    ensures ServerPairs(kind)[2] == ("authorityKeyIdentifier", "keyid,issuer")
    ensures ServerPairs(kind)[3].0 == "keyUsage" && UsageOf(kind, ServerPairs(kind)[3].1)
    ensures ServerPairs(kind)[4] == ("extendedKeyUsage", "serverAuth")
  {
  }

  lemma KeysDiffer(kind: CertificateKind)
    ensures forall i, j | 0 <= i < j < 5 :: ServerPairs(kind)[i].0 != ServerPairs(kind)[j].0
    ensures forall i | 0 <= i < 5 :: ServerPairs(kind)[i].0 != "subjectAltName"
  {
    assert "basicConstraints"[0] == 'b' && "extendedKeyUsage"[0] == 'e';
    assert |"basicConstraints"| == 16 && |"subjectKeyIdentifier"| == 20 && |"authorityKeyIdentifier"| == 22;
    assert |"keyUsage"| == 8 && |"extendedKeyUsage"| == 16 && |"subjectAltName"| == 14;
  }

  lemma ServerSettings(kind: CertificateKind)
    ensures PairValues(ServerPairs(kind), "basicConstraints") == ["critical,CA:FALSE"]
    ensures PairValues(ServerPairs(kind), "subjectKeyIdentifier") == ["hash"]
    ensures PairValues(ServerPairs(kind), "authorityKeyIdentifier") == ["keyid,issuer"]
    ensures |PairValues(ServerPairs(kind), "keyUsage")| == 1 && UsageOf(kind, PairValues(ServerPairs(kind), "keyUsage")[0])
    ensures PairValues(ServerPairs(kind), "extendedKeyUsage") == ["serverAuth"]
    ensures PairValues(ServerPairs(kind), "subjectAltName") == []
  {
    ServerKeys(kind);
    KeysDiffer(kind);
    forall i | 0 <= i < 5
      ensures PairValues(ServerPairs(kind), ServerPairs(kind)[i].0) == [ServerPairs(kind)[i].1]
    {
      ValueOfSingle(ServerPairs(kind), i);
    }
    ValueOfAbsent(ServerPairs(kind), "subjectAltName");
  }

  /** No other key of the section appears among the alternatives' pairs. */
  lemma AlternativeSettings(kind: CertificateKind, i: nat)
    requires i < 5
    ensures PairValues(ALT_PAIRS, ServerPairs(kind)[i].0) == []
    ensures PairValues(ALT_PAIRS, "subjectAltName") == ["@alt_names"]
  {
    ServerKeys(kind);
    KeysDiffer(kind);
    ValueOfAbsent(ALT_PAIRS, ServerPairs(kind)[i].0);
    ValueOfSingle(ALT_PAIRS, 0);
  }

  lemma RequestSettings()
    ensures PairValues(REQ_PAIRS, "distinguished_name") == ["req_dn"] && PairValues(REQ_PAIRS, "prompt") == ["no"]
  {
    assert |"distinguished_name"| == 18 && |"prompt"| == 6;
    ValueOfSingle(REQ_PAIRS, 0);
    ValueOfSingle(REQ_PAIRS, 1);
  }

  /** The value of a fixed setting is the same with and without alternatives. */
  lemma FixedSetting(req: Request, kind: CertificateKind, i: nat)
    requires i < 5
    ensures ValuesOf(Assignments(req, kind), "server_cert", ServerPairs(kind)[i].0) == PairValues(ServerPairs(kind), ServerPairs(kind)[i].0)
  {
    SettingsOfSection(req, kind, SERVER_CERT, ServerPairs(kind)[i].0);
    AlternativeSettings(kind, i);
    assert REQ[2] != SERVER_CERT[2];
  }

  lemma ConfigCarries(req: Request, kind: CertificateKind)
    ensures Carries(Assignments(req, kind), req, kind)
  {
    ServerKeys(kind);
    ServerSettings(kind);
    FixedSetting(req, kind, 0);
    FixedSetting(req, kind, 1);
    FixedSetting(req, kind, 2);
    FixedSetting(req, kind, 3);
    FixedSetting(req, kind, 4);
    ChangingSettings(req, kind);
  }

  lemma ChangingSettings(req: Request, kind: CertificateKind)
    ensures ValuesOf(Assignments(req, kind), "req", "distinguished_name") == ["req_dn"]
    ensures ValuesOf(Assignments(req, kind), "req", "prompt") == ["no"]
    ensures ValuesOf(Assignments(req, kind), "server_cert", "subjectAltName") == if NoAlternatives(req) then [] else ["@alt_names"]
    ensures NumberedValues(Assignments(req, kind), "alt_names", "DNS.", 1) == req.dnsNames
    ensures NumberedValues(Assignments(req, kind), "alt_names", "IP.", 1) == req.addresses
    ensures |Assignments(req, kind)| == 7 + (if NoAlternatives(req) then 0 else 1) + |req.dnsNames| + |req.addresses|
  {
    RequestSettings();
    SettingsOfSection(req, kind, REQ, "distinguished_name");
    SettingsOfSection(req, kind, REQ, "prompt");
    ServerSettings(kind);
    AlternativeSettings(kind, 0);
    SettingsOfSection(req, kind, SERVER_CERT, "subjectAltName");
    assert REQ[2] != SERVER_CERT[2];
    ValuesOfConfig(req, kind, DNS);
    ValuesOfConfig(req, kind, IP);
    DnsValues(req);
    AddressValues(req);
  }

  /**
   * Reading the printed configuration of a valid request gives back exactly its assignments, and with them the settings
   * of its kind and its alternative names: nothing in a valid request can add, hide or change a line.
   */
  lemma ConfigRoundTrip(req: Request, kind: CertificateKind)
    requires ValidRequest(req)
    ensures Parse(Terminated(RenderAll(ConfigItems(req, kind)))) == Some(Assignments(req, kind))
    ensures Carries(Assignments(req, kind), req, kind)
  {
    ConfigPrintable(req, kind);
    FormatRoundTrip(ConfigItems(req, kind));
    MeaningOfConfig(req, kind);
    ConfigCarries(req, kind);
  }

  /** Prints the configuration of a valid request; any other request or kind is refused. */
  method BuildExtensionConfig(req: Request, kind: CertificateKind) returns (r: Option<string>)
    ensures r == if ValidRequest(req) && !kind.OtherKind? then Some(Terminated(RenderAll(ConfigItems(req, kind)))) else None
    ensures r.Some? ==> Parse(r.value).Some? && Carries(Parse(r.value).value, req, kind)
  {
    var valid := ValidateRequest(req);
    if !valid || kind.OtherKind? {
      return None;
    }
    var config := new Builder();
    config.WriteLine(Section(REQ));
    WriteAll(config, REQ_PAIRS);
    config.WriteLine(Blank);
    config.WriteLine(Section(REQ_DN));
    config.WriteLine(Blank);
    WriteServer(config, req, kind);
    Nested([Section(REQ)], AssignAll(REQ_PAIRS), [Blank], [Section(REQ_DN)], [Blank], ServerItems(req, kind));
    assert [] + [Section(REQ)] == [Section(REQ)];
    r := Some(config.text);
    ConfigRoundTrip(req, kind);
  }

  /** No numbered key is assigned twice. */
  lemma NumberedKeysDistinct(req: Request, i: nat, j: nat)
    requires var alt := Numbered(DNS, req.dnsNames) + Numbered(IP, req.addresses); i < j < |alt|
    ensures var alt := Numbered(DNS, req.dnsNames) + Numbered(IP, req.addresses); alt[i].0 != alt[j].0
  {
    var n := |req.dnsNames|;
    if i < n <= j {
      assert (DNS + Decimal(i + 1))[0] != (IP + Decimal(j - n + 1))[0];
    } else {
      var prefix := if j < n then DNS else IP;
      var a, b := if j < n then i + 1 else i - n + 1, if j < n then j + 1 else j - n + 1;
      if prefix + Decimal(a) == prefix + Decimal(b) {
        assert (prefix + Decimal(a))[|prefix|..] == Decimal(a) && (prefix + Decimal(b))[|prefix|..] == Decimal(b);
        DecimalIsInjective(a, b);
      }
    }
  }
}
