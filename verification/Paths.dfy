/** Slash-separated paths: lexical cleaning and the filter for names in a backup archive. */
module Paths {
  import opened Text

  /** Resolves "." and ".." against what was kept so far. */
  function Resolve(parts: seq<string>, kept: seq<string>, rooted: bool): seq<string> {
    if parts == [] then kept
    else
      var part := parts[0];
      if part == "" || part == "." then Resolve(parts[1..], kept, rooted)
      else if part == ".." then
        if kept != [] && kept[|kept| - 1] != ".." then Resolve(parts[1..], kept[..|kept| - 1], rooted)
        else if rooted then Resolve(parts[1..], kept, rooted)
        else Resolve(parts[1..], kept + [part], rooted)
      else Resolve(parts[1..], kept + [part], rooted)
  }

  /** path.Clean. */
  function Clean(path: string): string {
    if path == "" then "."
    else
      var rooted := path[0] == '/';
      var kept := Resolve(Split(path, '/'), [], rooted);
      var body := if kept == [] then "" else Join(kept, '/');
      if rooted then "/" + body else if body == "" then "." else body
  }

  const MANIFEST := "manifest.json"

  /** The names that may appear in a backup archive. */
  predicate SafeArchivePath(name: string) {
    if name == "" || name[0] == '/' || Clean(name) != name then false
    else if name == MANIFEST then true
    else "data/" <= name || "config/" <= name
  }

  predicate ProperPart(part: string) {
    part != "" && part != "." && part != ".." && '/' !in part
  }

  predicate ProperParts(parts: seq<string>) {
    forall i | 0 <= i < |parts| :: ProperPart(parts[i])
  }

  lemma {:induction false} ResolveKeepsProper(parts: seq<string>, kept: seq<string>, rooted: bool)
    requires ProperParts(parts)
    ensures Resolve(parts, kept, rooted) == kept + parts
    decreases |parts|
  {
    if parts == [] {
      assert kept + parts == kept;
    } else {
      assert ProperPart(parts[0]);
      ResolveKeepsProper(parts[1..], kept + [parts[0]], rooted);
      assert kept + [parts[0]] + parts[1..] == kept + parts;
    }
  }

  /** Kept parts are proper, but for a beginning of "..". */
  ghost predicate Resolved(kept: seq<string>) {
    && (forall i | 0 <= i < |kept| :: kept[i] != "" && kept[i] != "." && '/' !in kept[i])
    && (forall i, j | 0 <= i < j < |kept| && kept[j] == ".." :: kept[i] == "..")
  }

  lemma {:induction false} ResolveResolves(parts: seq<string>, kept: seq<string>, rooted: bool)
    requires Plain(parts, '/') && Resolved(kept)
    ensures Resolved(Resolve(parts, kept, rooted))
    decreases |parts|
  {
    if parts != [] {
      var part := parts[0];
      assert '/' !in part;
      if part == "" || part == "." {
        ResolveResolves(parts[1..], kept, rooted);
      } else if part == ".." {
        if kept != [] && kept[|kept| - 1] != ".." {
          ResolveResolves(parts[1..], kept[..|kept| - 1], rooted);
        } else if rooted {
          ResolveResolves(parts[1..], kept, rooted);
        } else {
          ResolveResolves(parts[1..], kept + [part], rooted);
        }
      } else {
        ResolveResolves(parts[1..], kept + [part], rooted);
      }
    }
  }

  lemma JoinStartsWithFirst(parts: seq<string>, sep: char)
    requires |parts| >= 1
    ensures parts[0] <= Join(parts, sep)
  {
  }

  lemma CleanOfProper(path: string)
    requires path != "" && path[0] != '/' && ProperParts(Split(path, '/'))
    ensures Clean(path) == path
  {
    ResolveKeepsProper(Split(path, '/'), [], false);
    assert [] + Split(path, '/') == Split(path, '/');
    JoinOfSplit(path, '/');
  }

  /** A relative path that starts below a proper name and that cleaning leaves alone has proper parts only. */
  lemma FixpointIsProper(path: string)
    requires path != "" && path[0] != '/' && Clean(path) == path && ProperPart(Split(path, '/')[0])
    ensures ProperParts(Split(path, '/'))
  {
    var parts := Split(path, '/');
    var kept := Resolve(parts, [], false);
    SplitIsPlain(path, '/');
    ResolveResolves(parts, [], false);
    assert kept != [] by {
      SplitWithoutSeparator(".", '/');
    }
    assert Plain(kept, '/');
    assert Join(kept, '/') != "" by {
      JoinStartsWithFirst(kept, '/');
    }
    SplitOfJoin(kept, '/');
    assert parts == kept;
  }

  lemma FirstPart(name: string, first: string)
    requires '/' !in first
    ensures first + "/" <= name <==> Split(name, '/')[0] == first && |Split(name, '/')| >= 2
  {
    var parts := Split(name, '/');
    JoinOfSplit(name, '/');
    SplitIsPlain(name, '/');
    if first + "/" <= name {
      var rest := name[|first| + 1..];
      assert name == first + ['/'] + rest;
      SplitAtSeparator(first, rest, '/');
    }
    if parts[0] == first && |parts| >= 2 {
      assert name == first + ['/'] + Join(parts[1..], '/');
    }
  }

  /** At least two proper parts, of which the first is given. */
  predicate ProperBelow(parts: seq<string>, first: string) {
    |parts| >= 2 && parts[0] == first && ProperParts(parts)
  }

  /** Below a proper first part, cleaning leaves exactly the names of proper parts alone. */
  lemma BelowFirstPart(name: string, first: string)
    requires ProperPart(first)
    ensures first + "/" <= name && Clean(name) == name
            <==> ProperBelow(Split(name, '/'), first)
  {
    FirstPart(name, first);
    if first + "/" <= name {
      assert name[0] == first[0];
      if Clean(name) == name {
        FixpointIsProper(name);
      }
      if ProperParts(Split(name, '/')) {
        CleanOfProper(name);
      }
    }
  }

  lemma ManifestIsClean()
    ensures Clean(MANIFEST) == MANIFEST
  {
    SplitWithoutSeparator(MANIFEST, '/');
    assert ProperParts([MANIFEST]);
    CleanOfProper(MANIFEST);
  }

  lemma NotRooted(name: string, first: string)
    requires ProperPart(first) && first + "/" <= name
    ensures name != "" && name[0] != '/'
  {
    assert name[0] == first[0];
  }

  lemma SafeBelow(name: string)
    requires name != MANIFEST
    ensures SafeArchivePath(name) <==> Clean(name) == name && ("data" + "/" <= name || "config" + "/" <= name)
  {
    assert "data" + "/" == "data/" && "config" + "/" == "config/";
    if "data" + "/" <= name {
      NotRooted(name, "data");
    }
    if "config" + "/" <= name {
      NotRooted(name, "config");
    }
  }

  lemma SafeByPrefix(name: string)
    ensures SafeArchivePath(name) <==>
            name == MANIFEST || ("data" + "/" <= name && Clean(name) == name) || ("config" + "/" <= name && Clean(name) == name)
  {
    if name == MANIFEST {
      ManifestIsClean();
    } else {
      SafeBelow(name);
    }
  }

  lemma DataMeaning(name: string)
    ensures "data" + "/" <= name && Clean(name) == name <==> ProperBelow(Split(name, '/'), "data")
  {
    BelowFirstPart(name, "data");
  }

  lemma ConfigMeaning(name: string)
    ensures "config" + "/" <= name && Clean(name) == name <==> ProperBelow(Split(name, '/'), "config")
  {
    BelowFirstPart(name, "config");
  }

  /**
   * The accepted names, said without cleaning: the manifest, or at least two proper parts of which the first is the
   * archive's data or config directory.
   */
  lemma SafePathMeaning(name: string)
    ensures SafeArchivePath(name) <==>
            name == "manifest.json" || ProperBelow(Split(name, '/'), "data") || ProperBelow(Split(name, '/'), "config")
  {
    SafeByPrefix(name);
    DataMeaning(name);
    ConfigMeaning(name);
  }

  /** filepath.Join of a directory and a relative name. */
  function JoinPath(root: string, relative: string): string {
    Clean(root + "/" + relative)
  }

  /** What the names directly below a cleaned directory start with. */
  function Stem(directory: string): string {
    if directory == "/" then "/" else if directory == "." then "" else directory + "/"
  }

  lemma {:induction false} ResolveConcat(a: seq<string>, b: seq<string>, kept: seq<string>, rooted: bool)
    ensures Resolve(a + b, kept, rooted) == Resolve(b, Resolve(a, kept, rooted), rooted)
    decreases |a|
  {
    if a == [] {
      assert a + b == b;
    } else {
      var part := a[0];
      assert (a + b)[0] == part && (a + b)[1..] == a[1..] + b;
      if part == "" || part == "." {
        ResolveConcat(a[1..], b, kept, rooted);
      } else if part == ".." {
        if kept != [] && kept[|kept| - 1] != ".." {
          ResolveConcat(a[1..], b, kept[..|kept| - 1], rooted);
        } else if rooted {
          ResolveConcat(a[1..], b, kept, rooted);
        } else {
          ResolveConcat(a[1..], b, kept + [part], rooted);
        }
      } else {
        ResolveConcat(a[1..], b, kept + [part], rooted);
      }
    }
  }

  /** What cleaning joins for the parts it kept. */
  function Joined(kept: seq<string>, rooted: bool): string {
    var body := if kept == [] then "" else Join(kept, '/');
    if rooted then "/" + body else if body == "" then "." else body
  }

  lemma JoinOfResolved(kept: seq<string>)
    requires Resolved(kept) && kept != []
    ensures Join(kept, '/') != "" && Join(kept, '/') != "."
  {
    JoinStartsWithFirst(kept, '/');
    assert kept[0] != "" && kept[0] != ".";
    if |kept| > 1 {
      assert Join(kept, '/')[|kept[0]|] == '/';
    }
  }

  /** More parts below what was kept. */
  lemma JoinedBelow(kept: seq<string>, relative: string, rooted: bool)
    requires Resolved(kept) && relative != ""
    ensures Joined(kept + Split(relative, '/'), rooted) == Stem(Joined(kept, rooted)) + relative
  {
    var all := kept + Split(relative, '/');
    JoinOfSplit(relative, '/');
    if kept == [] {
      assert all == Split(relative, '/');
      assert "/" + "" == "/";
    } else {
      JoinWithTail(kept, relative, '/');
      JoinOfResolved(kept);
      var body := Join(kept, '/');
      assert Join(all, '/') == body + ['/'] + relative;
      assert "/" + (body + ['/'] + relative) == "/" + body + "/" + relative;
      assert body + ['/'] + relative == body + "/" + relative;
    }
  }

  lemma CleanIsJoined(path: string)
    requires path != ""
    ensures Clean(path) == Joined(Resolve(Split(path, '/'), [], path[0] == '/'), path[0] == '/')
    ensures Resolved(Resolve(Split(path, '/'), [], path[0] == '/'))
  {
    SplitIsPlain(path, '/');
    ResolveResolves(Split(path, '/'), [], path[0] == '/');
  }

  /** Joining a proper relative name to any directory, absolute or not, stays strictly below it and keeps the name. */
  lemma JoinStaysBelow(root: string, relative: string)
    requires root != "" && ProperParts(Split(relative, '/'))
    ensures JoinPath(root, relative) == Stem(Clean(root)) + relative
  {
    var path := root + "/" + relative;
    var rooted := root[0] == '/';
    assert path == root + ['/'] + relative && path[0] == root[0];
    SplitOfConcat(root, relative, '/');
    CleanIsJoined(root);
    CleanIsJoined(path);
    var kept := Resolve(Split(root, '/'), [], rooted);
    ResolveConcat(Split(root, '/'), Split(relative, '/'), [], rooted);
    ResolveKeepsProper(Split(relative, '/'), kept, rooted);
    ProperIsNotEmpty(relative);
    JoinedBelow(kept, relative, rooted);
  }

  lemma ProperIsNotEmpty(relative: string)
    requires ProperParts(Split(relative, '/'))
    ensures relative != ""
  {
    assert ProperPart(Split(relative, '/')[0]);
  }

  /** Distinct relative names reach distinct files. */
  lemma JoinIsInjective(root: string, a: string, b: string)
    requires root != "" && ProperParts(Split(a, '/')) && ProperParts(Split(b, '/'))
    requires JoinPath(root, a) == JoinPath(root, b)
    ensures a == b
  {
    JoinStaysBelow(root, a);
    JoinStaysBelow(root, b);
    var stem := Stem(Clean(root));
    assert (stem + a)[|stem|..] == a && (stem + b)[|stem|..] == b;
  }
}
