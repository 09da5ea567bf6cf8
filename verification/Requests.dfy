/** What may be requested for a certificate: the checks of ValidateRequest and the DNS name scanner. */
module Requests {
  import opened Names
  import opened Text

  /**
   * An address stands for the text that net.IP prints. A missing address prints as "<nil>" and one of a wrong length
   * with a leading "?"; every other text is of these characters.
   */
  predicate IsAddress(text: string) {
    text != "" && forall i | 0 <= i < |text| :: AddressChar(text[i])
  }

  predicate AddressChar(c: char) {
    '0' <= c <= '9' || 'a' <= c <= 'f' || c == ':' || c == '.'
  }

  datatype Request = Request(name: string, commonName: string, dnsNames: seq<string>, addresses: seq<string>, validDays: int)

  // ---- DNS names ----

  predicate LabelChar(c: char) {
    IsAlnum(c) || c == '-'
  }

  predicate ValidLabel(segment: string) {
    && 1 <= |segment| <= 63 && segment[0] != '-' && segment[|segment| - 1] != '-'
    && forall i | 0 <= i < |segment| :: LabelChar(segment[i])
  }

  function WithoutWildcard(name: string): string {
    if "*." <= name then name[2..] else name
  }

  /** The names the scanner accepts: dot-separated labels after an optional leading wildcard. */
  predicate DnsName(name: string) {
    && 1 <= |name| <= 253 && name[|name| - 1] != '.'
    && var labels := Split(WithoutWildcard(name), '.');
       forall i | 0 <= i < |labels| :: ValidLabel(labels[i])
  }

  method ValidDnsName(name: string) returns (ok: bool)
    ensures ok <==> DnsName(name)
  {
    if name == "" || |name| > 253 || name[|name| - 1] == '.' {
      return false;
    }
    var rest := if "*." <= name then name[2..] else name;
    var labels := Split(rest, '.');
    for i := 0 to |labels|
      invariant forall j | 0 <= j < i :: ValidLabel(labels[j])
    {
      var segment := labels[i];
      if segment == "" || |segment| > 63 || segment[0] == '-' || segment[|segment| - 1] == '-' {
        return false;
      }
      for j := 0 to |segment|
        invariant forall k | 0 <= k < j :: LabelChar(segment[k])
      {
        var r := segment[j];
        if (r < 'a' || r > 'z') && (r < 'A' || r > 'Z') && (r < '0' || r > '9') && r != '-' {
          return false;
        }
      }
    }
    return true;
  }

  // ---- The same language as one automaton ----

  /** Progress inside a segment: nothing read yet, or some characters read, the last one a hyphen or not. */
  datatype Scan = Begin | Star | LabelStart | InLabel(length: nat, hyphen: bool) | Reject

  function Advance(state: Scan, c: char): Scan {
    match state
    case Reject => Reject
    case Begin => if c == '*' then Star else if IsAlnum(c) then InLabel(1, false) else Reject
    case Star => if c == '.' then LabelStart else Reject
    case LabelStart => if IsAlnum(c) then InLabel(1, false) else Reject
    case InLabel(length, hyphen) =>
      if c == '.' then (if hyphen then Reject else LabelStart)
      else if LabelChar(c) && length < 63 then InLabel(length + 1, c == '-')
      else Reject
  }

  function Scanned(state: Scan, s: string): Scan
    decreases |s|
  {
    if s == "" then state else Scanned(Advance(state, s[0]), s[1..])
  }

  predicate Accepting(state: Scan) {
    state.InLabel? && !state.hyphen
  }

  /** Letter-digit-hyphen names of section 2.1 of RFC 1123 with an optional leading wildcard segment. */
  predicate AutomatonAccepts(name: string) {
    |name| <= 253 && Accepting(Scanned(Begin, name))
  }

  predicate AllLabelsValid(s: string) {
    forall i | 0 <= i < |Split(s, '.')| :: ValidLabel(Split(s, '.')[i])
  }

  /** read is a nonempty beginning of a label that could still become valid. */
  predicate LabelPrefix(read: string) {
    1 <= |read| <= 63 && read[0] != '-' && forall i | 0 <= i < |read| :: LabelChar(read[i])
  }

  lemma {:induction false} RejectStays(s: string)
    ensures Scanned(Reject, s) == Reject
    decreases |s|
  {
    if s != "" {
      RejectStays(s[1..]);
    }
  }

  lemma {:induction false} ScanInsideLabel(read: string, s: string)
    requires LabelPrefix(read)
    ensures Accepting(Scanned(InLabel(|read|, read[|read| - 1] == '-'), s)) <==> AllLabelsValid(read + s)
    decreases |s|
  {
    assert '.' !in read;
    if s == "" {
      assert read + s == read;
      SplitWithoutSeparator(read, '.');
      assert Split(read, '.')[0] == read;
    } else {
      RejectStays(s[1..]);
      if s[0] == '.' {
        assert read + s == read + ['.'] + s[1..];
        SplitAtSeparator(read, s[1..], '.');
        var labels := Split(read + s, '.');
        assert labels[0] == read && labels[1..] == Split(s[1..], '.');
        assert AllLabelsValid(read + s) <==> ValidLabel(read) && AllLabelsValid(s[1..]) by {
          assert forall i | 0 <= i < |Split(s[1..], '.')| :: labels[i + 1] == Split(s[1..], '.')[i];
        }
        ScanAtLabelStart(s[1..]);
      } else {
        var longer := read + [s[0]];
        assert longer + s[1..] == read + s;
        if LabelChar(s[0]) && |read| < 63 {
          ScanInsideLabel(longer, s[1..]);
        } else {
          assert longer[|read|] == s[0];
          BadLabel(longer, s[1..]);
        }
      }
    }
  }

  /** A first label that already broke a rule stays broken whatever follows. */
  lemma BadLabel(read: string, s: string)
    requires read != "" && '.' !in read
    requires |read| > 63 || read[0] == '-' || exists i :: 0 <= i < |read| && !LabelChar(read[i])
    ensures !AllLabelsValid(read + s)
  {
    FirstLabelExtends(read, s);
    var first := Split(read + s, '.')[0];
    assert forall i | 0 <= i < |read| :: first[i] == read[i];
  }

  lemma {:induction false} FirstLabelExtends(read: string, s: string)
    requires '.' !in read
    ensures read <= Split(read + s, '.')[0]
    decreases |read|
  {
    if read != "" {
      assert (read + s)[1..] == read[1..] + s;
      FirstLabelExtends(read[1..], s);
      assert read == [read[0]] + read[1..];
    }
  }

  lemma {:induction false} ScanAtLabelStart(s: string)
    ensures Accepting(Scanned(LabelStart, s)) <==> AllLabelsValid(s)
    decreases |s|
  {
    if s == "" {
      assert Split(s, '.')[0] == "";
    } else if s[0] == '.' {
      RejectStays(s[1..]);
      assert Split(s, '.')[0] == "";
    } else {
      assert [s[0]] + s[1..] == s;
      if IsAlnum(s[0]) {
        ScanInsideLabel([s[0]], s[1..]);
      } else {
        RejectStays(s[1..]);
        BadLabel([s[0]], s[1..]);
      }
    }
  }

  lemma ScanWildcard(name: string)
    ensures Accepting(Scanned(Begin, name)) <==> name != "" && Accepting(Scanned(LabelStart, WithoutWildcard(name)))
  {
    if name != "" && name[0] == '*' {
      if |name| > 1 {
        RejectStays(name[1..][1..]);
        assert name[1..][1..] == name[2..];
      }
      RejectStays(name[1..]);
      assert "*." <= name <==> |name| >= 2 && name[1] == '.';
    } else if name != "" {
      assert !("*." <= name);
    }
  }

  /** The split-and-scan loops accept exactly the language of the one-pass automaton. */
  lemma ScannerIsAutomaton(name: string)
    ensures DnsName(name) <==> AutomatonAccepts(name)
  {
    var rest := WithoutWildcard(name);
    ScanAtLabelStart(rest);
    ScanWildcard(name);
    if name != "" && name[|name| - 1] == '.' {
      if rest != "" {
        assert rest[|rest| - 1] == '.';
        var before := rest[..|rest| - 1];
        assert rest == before + ['.'] + "";
        SplitOfConcat(before, "", '.');
        assert Split("", '.') == [""];
        assert Split(rest, '.')[|Split(before, '.')|] == "";
      } else {
        assert Split(rest, '.')[0] == "";
      }
      assert !AllLabelsValid(rest);
    }
  }

  // ---- Requests ----

  predicate UnsafeInSubject(c: char) {
    c == '\0' || c == '\r' || c == '\n' || c == '/' || c == '\\' || c == '='
  }

  /** What ValidateRequest accepts. */
  predicate ValidRequest(req: Request) {
    && SafeName(req.name)
    && 1 <= |req.commonName| <= 253
    && (forall i | 0 <= i < |req.commonName| :: !UnsafeInSubject(req.commonName[i]))
    && (forall i | 0 <= i < |req.dnsNames| :: DnsName(req.dnsNames[i]))
    && (forall i | 0 <= i < |req.addresses| :: IsAddress(req.addresses[i]))
    && 1 <= req.validDays <= 825
  }

  /** The characters that strings.IndexAny looks for in a common name. */
  const UNSAFE := "\0\r\n/\\="

  /** The match of the name against its pattern, one character after the other. */
  method MatchesName(name: string) returns (ok: bool)
    ensures ok <==> SafeName(name)
  {
    for i := 0 to |name|
      invariant i <= 64
      invariant forall j | 0 <= j < i :: IsAlnum(name[j]) || (j > 0 && name[j] in "._-")
    {
      var c := name[i];
      var letter := ('A' <= c && c <= 'Z') || ('a' <= c && c <= 'z') || ('0' <= c && c <= '9');
      if i == 64 || !(letter || (i > 0 && (c == '.' || c == '_' || c == '-'))) {
        return false;
      }
    }
    ok := name != "";
  }

  method ValidateRequest(req: Request) returns (ok: bool)
    ensures ok <==> ValidRequest(req)
  {
    var named := MatchesName(req.name);
    if !named || req.name == "." || req.name == ".." {
      return false;
    }
    if req.commonName == "" || |req.commonName| > 253
       || exists i | 0 <= i < |req.commonName| :: req.commonName[i] in UNSAFE {
      return false;
    }
    for i := 0 to |req.dnsNames|
      invariant forall j | 0 <= j < i :: DnsName(req.dnsNames[j])
    {
      var valid := ValidDnsName(req.dnsNames[i]);
      if !valid {
        return false;
      }
    }
    for i := 0 to |req.addresses|
      invariant forall j | 0 <= j < i :: IsAddress(req.addresses[j])
    {
      if !IsAddress(req.addresses[i]) {
        return false;
      }
    }
    return 1 <= req.validDays <= 825;
  }
}
