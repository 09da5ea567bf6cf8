/**
 * The subject text that an issuance gives to the tool, and the tool's reading of it: a slash, then attributes of the form
 * type=value between slashes. A backslash takes the next character as it is, an empty value drops its attribute, and a
 * tool that reads multi-valued names takes a plus sign between attributes like a slash.
 */
module Subject {
  import opened Basics
  import opened Text
  import opened Requests

  datatype Attribute = Attribute(kind: string, value: string)

  predicate EndsValue(c: char, multi: bool) {
    c == '/' || (multi && c == '+')
  }

  /** The value at the beginning of a text and how many characters it takes; nothing for a backslash at the end. */
  function ReadValue(s: string, multi: bool): (r: Option<(string, nat)>)
    ensures r.Some? ==> r.value.1 <= |s|
  {
    if s == "" || EndsValue(s[0], multi) then Some(("", 0))
    else if s[0] == '\\' && |s| == 1 then None
    else
      var taken := if s[0] == '\\' then 2 else 1;
      var rest := ReadValue(s[taken..], multi);
      if rest.None? then None else Some(([s[taken - 1]] + rest.value.0, taken + rest.value.1))
  }

  /** What follows the end of a value. */
  function Behind(rest: string): (r: string)
    ensures |r| <= |rest|
  {
    if rest == "" then "" else rest[1..]
  }

  /** The first attribute of a text, its type and value, and what follows it; nothing for a type without an equals sign. */
  function SplitAttribute(s: string, multi: bool): (r: Option<(string, string, string)>)
    requires s != ""
    ensures r.Some? ==> |r.value.2| < |s|
  {
    var i := IndexOf(s, '=');
    if i == |s| then None
    else
      var value := ReadValue(s[i + 1..], multi);
      if value.None? then None else Some((s[..i], value.value.0, Behind(s[i + 1..][value.value.1..])))
  }

  function WithAttribute(kind: string, value: string, more: Option<seq<Attribute>>): Option<seq<Attribute>> {
    if more.None? || value == "" then more else Some([Attribute(kind, value)] + more.value)
  }

  /** The attributes of a text, without those of an empty value. */
  function ReadAttributes(s: string, multi: bool): Option<seq<Attribute>>
    decreases |s|
  {
    if s == "" then Some([])
    else
      var first := SplitAttribute(s, multi);
      if first.None? then None
      else WithAttribute(first.value.0, first.value.1, ReadAttributes(first.value.2, multi))
  }

  function ReadSubject(text: string, multi: bool): Option<seq<Attribute>> {
    if text == "" || text[0] != '/' then None else ReadAttributes(text[1..], multi)
  }

  /** How much of a text without slashes and backslashes is one value: all of it, or up to a plus sign that counts. */
  function ValueLength(s: string, multi: bool): nat {
    if multi then IndexOf(s, '+') else |s|
  }

  lemma {:induction false} PlainValue(s: string, multi: bool)
    requires '/' !in s && '\\' !in s
    ensures ValueLength(s, multi) <= |s|
    ensures ReadValue(s, multi) == Some((s[..ValueLength(s, multi)], ValueLength(s, multi)))
    decreases |s|
  {
    if s != "" && !EndsValue(s[0], multi) {
      assert s == [s[0]] + s[1..];
      assert s[0] != '\\';
      PlainValue(s[1..], multi);
      var n := ValueLength(s[1..], multi);
      assert ValueLength(s, multi) == 1 + n;
      assert s[..1 + n] == [s[0]] + s[1..][..n];
    }
  }

  lemma NoType(s: string, multi: bool)
    requires s != "" && '=' !in s
    ensures ReadAttributes(s, multi).None?
  {
    IndexOfAbsent(s, '=');
  }

  /** Behind the value there is nothing more to read, or no type. */
  lemma BehindValue(name: string, n: nat, multi: bool)
    requires '=' !in name && n <= |name|
    ensures ReadAttributes(Behind(name[n..]), multi) == if n + 1 < |name| then None else Some([])
  {
    if n + 1 < |name| {
      assert name[n..][1..] == name[n + 1..];
      NoType(name[n + 1..], multi);
    }
  }

  /** The text is one attribute. */
  ghost predicate OneAttribute(s: string, kind: string, name: string) {
    |kind| < |s| && IndexOf(s, '=') == |kind| && s[..|kind|] == kind && s[|kind| + 1..] == name
  }

  lemma SplitOneAttribute(s: string, kind: string, name: string, multi: bool)
    requires OneAttribute(s, kind, name) && '/' !in name && '\\' !in name
    ensures ValueLength(name, multi) <= |name|
    ensures SplitAttribute(s, multi) == Some((kind, name[..ValueLength(name, multi)], Behind(name[ValueLength(name, multi)..])))
  {
    PlainValue(name, multi);
  }

  lemma WithNothingMore(kind: string, value: string)
    ensures WithAttribute(kind, value, None) == None
    ensures WithAttribute(kind, value, Some([])) == if value == "" then Some([]) else Some([Attribute(kind, value)])
  {
    assert [Attribute(kind, value)] + [] == [Attribute(kind, value)];
  }

  /** What is read of one attribute whose value has no slash, backslash or equals sign. */
  lemma ReadOneAttribute(s: string, kind: string, name: string, multi: bool)
    requires OneAttribute(s, kind, name) && '/' !in name && '\\' !in name && '=' !in name
    ensures var n := ValueLength(name, multi);
            && n <= |name|
            && ReadAttributes(s, multi) ==
               if n + 1 < |name| then None else if n == 0 then Some([]) else Some([Attribute(kind, name[..n])])
  {
    var n := ValueLength(name, multi);
    SplitOneAttribute(s, kind, name, multi);
    BehindValue(name, n, multi);
    WithNothingMore(kind, name[..n]);
  }

  lemma CommonNameText(name: string)
    ensures ("/CN=" + name)[0] == '/' && OneAttribute(("/CN=" + name)[1..], "CN", name)
  {
    IndexOfAssign("CN", name);
    assert ("/CN=" + name)[1..] == "CN" + "=" + name;
    assert ("CN" + "=" + name)[..2] == "CN" && ("CN" + "=" + name)[3..] == name;
  }

  /** What is read of a common name without slashes, backslashes and equals signs. */
  lemma ReadCommonName(name: string, multi: bool)
    requires '/' !in name && '\\' !in name && '=' !in name
    ensures var n := ValueLength(name, multi);
            && n <= |name|
            && ReadSubject("/CN=" + name, multi) ==
               if n + 1 < |name| then None else if n == 0 then Some([]) else Some([Attribute("CN", name[..n])])
  {
    CommonNameText(name);
    ReadOneAttribute(("/CN=" + name)[1..], "CN", name, multi);
  }

  /**
   * The subject of an accepted request has its common name as the one attribute, exactly when no plus sign in it is taken
   * for the end of an attribute. In every case nothing but a beginning of the name can be read from it.
   */
  lemma SubjectIsCommonNameIff(req: Request, multi: bool)
    requires ValidRequest(req)
    ensures var read := ReadSubject("/CN=" + req.commonName, multi);
            && (read == Some([Attribute("CN", req.commonName)]) <==> !(multi && '+' in req.commonName))
            && (read.Some? ==> |read.value| <= 1)
            && (read.Some? ==> forall a | a in read.value :: a.kind == "CN" && a.value <= req.commonName)
  {
    var name := req.commonName;
    CommonNameIsPlain(req);
    ReadCommonName(name, multi);
    var n := ValueLength(name, multi);
    if multi && '+' in name {
      IndexOfAbsent(name, '+');
      assert |name[..n]| < |name|;
    } else {
      IndexOfAbsent(name, '+');
      assert name[..|name|] == name;
    }
  }

  lemma CommonNameIsPlain(req: Request)
    requires ValidRequest(req)
    ensures '/' !in req.commonName && '\\' !in req.commonName && '=' !in req.commonName && req.commonName != ""
  {
    forall c | c in req.commonName
      ensures !UnsafeInSubject(c)
    {
      var i :| 0 <= i < |req.commonName| && req.commonName[i] == c;
    }
  }

  /** Where multi-valued names are read, an accepted name loses its last plus sign, and one inside it is an error. */
  lemma PlusIsLost()
    ensures ReadSubject("/CN=" + "a+", true) == Some([Attribute("CN", "a")])
    ensures ReadSubject("/CN=" + "a+b", true) == None
    ensures forall i | 0 <= i < 3 :: !UnsafeInSubject("a+b"[i])
  {
    assert "a+"[..1] == "a" && "a+b"[..1] == "a";
    assert IndexOf("a+", '+') == 1 by {
      assert "a+"[0] == 'a' && "a+"[1..][0] == '+';
    }
    assert IndexOf("a+b", '+') == 1 by {
      assert "a+b"[0] == 'a' && "a+b"[1..][0] == '+';
    }
    ReadCommonName("a+", true);
    ReadCommonName("a+b", true);
  }
}
