/** Splitting and joining text at a separator, as strings.Split and strings.Join do. */
module Text {
  function Split(s: string, sep: char): (parts: seq<string>)
    ensures |parts| >= 1
  {
    if s == "" then [""]
    else
      var rest := Split(s[1..], sep);
      if s[0] == sep then [""] + rest else [[s[0]] + rest[0]] + rest[1..]
  }

  function Join(parts: seq<string>, sep: char): string
    requires |parts| >= 1
  {
    if |parts| == 1 then parts[0] else parts[0] + [sep] + Join(parts[1..], sep)
  }

  ghost predicate Plain(parts: seq<string>, sep: char) {
    forall i | 0 <= i < |parts| :: sep !in parts[i]
  }

  lemma {:induction false} SplitIsPlain(s: string, sep: char)
    ensures Plain(Split(s, sep), sep)
  {
    if s != "" {
      SplitIsPlain(s[1..], sep);
    }
  }

  lemma JoinWithFirst(first: string, rest: seq<string>, sep: char)
    requires |rest| >= 1
    ensures Join([first] + rest, sep) == first + [sep] + Join(rest, sep)
  {
    assert ([first] + rest)[1..] == rest;
  }

  lemma JoinWithLonger(c: char, parts: seq<string>, sep: char)
    requires |parts| >= 1
    ensures Join([[c] + parts[0]] + parts[1..], sep) == [c] + Join(parts, sep)
  {
    var longer := [[c] + parts[0]] + parts[1..];
    if |parts| > 1 {
      assert longer[1..] == parts[1..];
    }
  }

  lemma {:induction false} JoinOfSplit(s: string, sep: char)
    ensures Join(Split(s, sep), sep) == s
  {
    if s != "" {
      JoinOfSplit(s[1..], sep);
      if s[0] == sep {
        JoinWithFirst("", Split(s[1..], sep), sep);
      } else {
        JoinWithLonger(s[0], Split(s[1..], sep), sep);
      }
      assert s == [s[0]] + s[1..];
    }
  }

  lemma {:induction false} SplitWithoutSeparator(s: string, sep: char)
    requires sep !in s
    ensures Split(s, sep) == [s]
  {
    if s != "" {
      SplitWithoutSeparator(s[1..], sep);
      assert s == [s[0]] + s[1..];
    }
  }

  lemma {:induction false} SplitAtSeparator(a: string, b: string, sep: char)
    requires sep !in a
    ensures Split(a + [sep] + b, sep) == [a] + Split(b, sep)
  {
    var s := a + [sep] + b;
    if a == "" {
      assert s[1..] == b;
    } else {
      SplitAtSeparator(a[1..], b, sep);
      assert s[1..] == a[1..] + [sep] + b;
      assert a == [a[0]] + a[1..];
    }
  }

  /** Joining plain parts loses nothing: splitting gives them back. */
  lemma {:induction false} SplitOfJoin(parts: seq<string>, sep: char)
    requires |parts| >= 1 && Plain(parts, sep)
    ensures Split(Join(parts, sep), sep) == parts
  {
    if |parts| == 1 {
      SplitWithoutSeparator(parts[0], sep);
    } else {
      assert Plain(parts[1..], sep);
      SplitOfJoin(parts[1..], sep);
      SplitAtSeparator(parts[0], Join(parts[1..], sep), sep);
    }
  }

  /** Splitting two texts with a separator between them splits each. */
  lemma {:induction false} SplitOfConcat(a: string, b: string, sep: char)
    ensures Split(a + [sep] + b, sep) == Split(a, sep) + Split(b, sep)
  {
    var parts := Split(a, sep);
    SplitIsPlain(a, sep);
    JoinOfSplit(a, sep);
    JoinWithTail(parts, b, sep);
    SplitIsPlain(b, sep);
    JoinOfSplit(b, sep);
    SplitOfJoin(parts + Split(b, sep), sep);
  }

  lemma {:induction false} JoinOfConcat(parts: seq<string>, more: seq<string>, sep: char)
    requires |parts| >= 1 && |more| >= 1
    ensures Join(parts + more, sep) == Join(parts, sep) + [sep] + Join(more, sep)
  {
    if |parts| == 1 {
      JoinWithFirst(parts[0], more, sep);
      assert parts + more == [parts[0]] + more;
    } else {
      JoinOfConcat(parts[1..], more, sep);
      JoinWithFirst(parts[0], parts[1..] + more, sep);
      assert parts + more == [parts[0]] + (parts[1..] + more);
    }
  }

  lemma JoinWithTail(parts: seq<string>, b: string, sep: char)
    requires |parts| >= 1
    ensures Join(parts + Split(b, sep), sep) == Join(parts, sep) + [sep] + b
  {
    JoinOfConcat(parts, Split(b, sep), sep);
    JoinOfSplit(b, sep);
  }

  /** Lines, each ended by a line feed. */
  function Terminated(lines: seq<string>): string {
    if lines == [] then "" else Terminated(lines[..|lines| - 1]) + lines[|lines| - 1] + "\n"
  }

  lemma {:induction false} TerminatedIsJoin(lines: seq<string>)
    ensures Terminated(lines) == Join(lines + [""], '\n')
  {
    if lines != [] {
      var n := |lines| - 1;
      TerminatedIsJoin(lines[..n]);
      JoinLast(lines[..n] + [""], lines[n]);
      assert lines + [""] == lines[..n] + [lines[n], ""];
    }
  }

  lemma {:induction false} JoinLast(parts: seq<string>, line: string)
    requires |parts| >= 1 && parts[|parts| - 1] == ""
    ensures Join(parts[..|parts| - 1] + [line, ""], '\n') == Join(parts, '\n') + line + "\n"
  {
    var longer := parts[..|parts| - 1] + [line, ""];
    if |parts| == 1 {
      assert longer == [line, ""];
      assert longer[1..] == [""];
    } else {
      JoinLast(parts[1..], line);
      assert longer[1..] == parts[1..][..|parts| - 2] + [line, ""];
    }
  }

  /** The first position of a character, or the length without one. */
  function IndexOf(s: string, c: char): (i: nat)
    ensures i <= |s| && c !in s[..i] && (i < |s| ==> s[i] == c)
  {
    if s == "" || s[0] == c then 0
    else
      var i := 1 + IndexOf(s[1..], c);
      assert s[..i] == [s[0]] + s[1..][..i - 1];
      i
  }

  lemma {:induction false} IndexOfAbsent(s: string, c: char)
    ensures IndexOf(s, c) == |s| <==> c !in s
  {
    if s != "" && s[0] != c {
      IndexOfAbsent(s[1..], c);
      assert s == [s[0]] + s[1..];
    }
  }

  lemma IndexOfAssign(key: string, value: string)
    requires '=' !in key
    ensures IndexOf(key + "=" + value, '=') == |key|
  {
    var line := key + "=" + value;
    assert line[|key|] == '=';
    assert forall j | 0 <= j < |key| :: line[j] == key[j];
    assert forall j | |key| < j <= |line| :: line[..j][|key|] == '=';
  }
}
