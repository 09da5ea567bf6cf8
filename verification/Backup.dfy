/** Create and restore as a whole: directories to entries, archive, artifact, and back to directories. */
module Backup {
  import opened Basics
  import opened Text
  import opened Order
  import opened Paths
  import opened Archive
  import opened Frame
  import opened RestoreTransaction

  /** The regular files of a directory as a file system can hold them: proper relative names, no file above another. */
  ghost predicate RealTree(tree: Tree) {
    && (forall name | name in tree :: ProperParts(Split(name, '/')) && tree[name].mode < 0x200)
    && (forall a, b | a in tree && b in tree :: !(a + "/" <= b))
  }

  function EntryOf(prefix: string, name: string, file: File): Entry {
    Entry(Clean(prefix + "/" + name), file.mode, file.data)
  }

  lemma NameUnderPrefix(prefix: string, name: string)
    requires prefix == "data" || prefix == "config"
    requires ProperParts(Split(name, '/'))
    ensures Clean(prefix + "/" + name) == prefix + "/" + name
    ensures SafeArchivePath(prefix + "/" + name) && prefix + "/" + name != MANIFEST
  {
    var path := prefix + "/" + name;
    assert path == prefix + ['/'] + name;
    SplitAtSeparator(prefix, name, '/');
    assert ProperPart(prefix);
    assert ProperParts([prefix] + Split(name, '/'));
    CleanOfProper(path);
    SafePathMeaning(path);
    assert path[0] == prefix[0] != MANIFEST[0];
  }

  // ---- Collecting ----

  ghost predicate FromTree(prefix: string, tree: Tree, e: Entry) {
    exists name :: name in tree && e == Entry(prefix + "/" + name, tree[name].mode, tree[name].data)
  }

  /** The entries of the two directories, each file once. */
  ghost predicate IsCollection(entries: seq<Entry>, data: Tree, config: Tree) {
    && DistinctKeys(EntryKey(), entries)
    && forall e :: e in entries <==> FromTree("data", data, e) || FromTree("config", config, e)
  }

  lemma PrefixedNamesDiffer(prefix: string, a: string, b: string)
    requires a != b
    ensures prefix + "/" + a != prefix + "/" + b
  {
    assert (prefix + "/" + a)[|prefix| + 1..] == a && (prefix + "/" + b)[|prefix| + 1..] == b;
  }

  /** The walk of a directory and the reads of its files succeed. */
  ghost predicate Readable(prefix: string, tree: Tree, unreadable: set<string>) {
    prefix !in unreadable && forall name | name in tree :: prefix + "/" + name !in unreadable
  }

  /** Walks one directory; an unsafe name or a failed read, given by archive names, ends the collection. */
  method CollectTree(prefix: string, tree: Tree, before: seq<Entry>, unreadable: set<string>) returns (r: Option<seq<Entry>>)
    requires (prefix == "data" || prefix == "config") && RealTree(tree)
    requires DistinctKeys(EntryKey(), before) && forall f | f in before :: !(prefix + "/" <= f.name)
    ensures r.Some? <==> Readable(prefix, tree, unreadable)
    ensures r.Some? ==> DistinctKeys(EntryKey(), r.value) && forall e :: e in r.value <==> e in before || FromTree(prefix, tree, e)
  {
    if prefix in unreadable {
      return None;
    }
    var entries := before;
    var rest := tree.Keys;
    while rest != {}
      invariant rest <= tree.Keys && DistinctKeys(EntryKey(), entries)
      invariant forall e :: e in entries <==>
          e in before || exists name :: name in tree && name !in rest && e == Entry(prefix + "/" + name, tree[name].mode, tree[name].data)
      invariant forall name | name in tree && name !in rest :: prefix + "/" + name !in unreadable
      decreases |rest|
    {
      var name :| name in rest;
      NameUnderPrefix(prefix, name);
      var entry := EntryOf(prefix, name, tree[name]);
      if !SafeArchivePath(entry.name) || entry.name in unreadable {
        return None;
      }
      forall f | f in entries
        ensures f.name != entry.name
      {
        if f !in before {
          var other :| other in tree && other !in rest && f == Entry(prefix + "/" + other, tree[other].mode, tree[other].data);
          PrefixedNamesDiffer(prefix, other, name);
        }
      }
      DistinctAppend(EntryKey(), entries, entry);
      entries := entries + [entry];
      rest := rest - {name};
    }
    r := Some(entries);
  }

  /** Collects both directories by name, unless a read fails. */
  method Collect(data: Tree, config: Tree, unreadable: set<string>) returns (r: Option<seq<Entry>>)
    requires RealTree(data) && RealTree(config)
    ensures r.Some? <==> Readable("data", data, unreadable) && Readable("config", config, unreadable)
    ensures r.Some? ==> IsCollection(r.value, data, config) && Ascending(EntryKey(), r.value)
  {
    r := CollectTree("data", data, [], unreadable);
    if r.None? {
      return;
    }
    ghost var first := r.value;
    forall f | f in first
      ensures !("config/" <= f.name)
    {
      assert f.name[0] == 'd';
    }
    r := CollectTree("config", config, r.value, unreadable);
    if r.None? {
      return;
    }
    var entries := r.value;
    var sorted := Sort(EntryKey(), entries);
    SortAscending(EntryKey(), entries);
    SameMembers(sorted, entries);
    DistinctPermuted(EntryKey(), entries, sorted);
    r := Some(sorted);
  }

  lemma CollectionIsCollected(entries: seq<Entry>, data: Tree, config: Tree)
    requires RealTree(data) && RealTree(config) && IsCollection(entries, data, config)
    ensures Collected(entries)
  {
    forall e | e in entries
      ensures SafeArchivePath(e.name) && e.name != MANIFEST && e.mode < 0x200
    {
      if FromTree("data", data, e) {
        var name :| name in data && e == Entry("data" + "/" + name, data[name].mode, data[name].data);
        NameUnderPrefix("data", name);
      } else {
        var name :| name in config && e == Entry("config" + "/" + name, config[name].mode, config[name].data);
        NameUnderPrefix("config", name);
      }
    }
  }

  // ---- Materialising ----

  /** The tree that the entries below a prefix describe. */
  function TreeOf(prefix: string, entries: seq<Entry>): Tree {
    if entries == [] then map[]
    else
      var n := |entries| - 1;
      var e := entries[n];
      if prefix + "/" <= e.name then TreeOf(prefix, entries[..n])[e.name[|prefix| + 1..] := File(e.mode, e.data)]
      else TreeOf(prefix, entries[..n])
  }

  lemma {:induction false} TreeOfMembers(prefix: string, entries: seq<Entry>)
    requires DistinctKeys(EntryKey(), entries)
    ensures forall e | e in entries && prefix + "/" <= e.name ::
              e.name[|prefix| + 1..] in TreeOf(prefix, entries)
              && TreeOf(prefix, entries)[e.name[|prefix| + 1..]] == File(e.mode, e.data)
    ensures forall name | name in TreeOf(prefix, entries) :: exists e :: e in entries && e.name == prefix + "/" + name
  {
    if entries != [] {
      var n := |entries| - 1;
      var before := entries[..n];
      var last := entries[n];
      assert entries == before + [last];
      DistinctPrefix(EntryKey(), entries, n);
      TreeOfMembers(prefix, before);
      forall e | e in entries && prefix + "/" <= e.name
        ensures e.name == prefix + "/" + e.name[|prefix| + 1..]
      {
      }
      assert forall e | e in before :: EntryKey()(e) != EntryKey()(last);
    }
  }

  /** The files are those of the tree, each name after the stem. */
  ghost predicate PlacedAt(stem: string, files: map<string, File>, tree: Tree) {
    && (forall name | name in tree :: stem + name in files && files[stem + name] == tree[name])
    && (forall path | path in files :: exists name :: name in tree && path == stem + name)
  }

  /** One file is needed as a directory above another. */
  ghost predicate Conflicting(tree: Tree) {
    exists a, b :: a in tree && b in tree && a + "/" <= b
  }

  /** The operating system refuses one of the files. */
  ghost predicate Refuses(stem: string, tree: Tree, failing: set<string>) {
    exists name :: name in tree && stem + name in failing
  }

  lemma RelativeIsProper(prefix: string, name: string)
    requires (prefix == "data" || prefix == "config") && SafeArchivePath(name) && prefix + "/" <= name
    ensures ProperParts(Split(name[|prefix| + 1..], '/'))
  {
    var relative := name[|prefix| + 1..];
    assert name == prefix + ['/'] + relative;
    SplitAtSeparator(prefix, relative, '/');
    SafePathMeaning(name);
    SplitWithoutSeparator(MANIFEST, '/');
    var parts := Split(name, '/');
    forall i | 0 <= i < |Split(relative, '/')|
      ensures ProperPart(Split(relative, '/')[i])
    {
      assert parts[i + 1] == Split(relative, '/')[i];
    }
  }

  lemma StemmedNamesDiffer(stem: string, a: string, b: string)
    requires a != b
    ensures stem + a != stem + b
  {
    assert (stem + a)[|stem|..] == a && (stem + b)[|stem|..] == b;
  }

  lemma PlacedStep(stem: string, files: map<string, File>, tree: Tree, relative: string, file: File)
    requires PlacedAt(stem, files, tree)
    ensures PlacedAt(stem, files[stem + relative := file], tree[relative := file])
  {
    forall name | name in tree && name != relative
      ensures stem + name != stem + relative
    {
      StemmedNamesDiffer(stem, name, relative);
    }
  }

  lemma AncestorBelowStem(stem: string, a: string, b: string)
    ensures stem + a + "/" <= stem + b <==> a + "/" <= b
  {
    assert (stem + a + "/")[|stem|..] == a + "/" && (stem + b)[|stem|..] == b;
    if stem + a + "/" <= stem + b {
      assert (stem + b)[|stem|..][..|a| + 1] == (stem + b)[..|stem + a + "/"|][|stem|..];
    }
    if a + "/" <= b {
      assert stem + a + "/" == stem + (a + "/");
      assert (stem + b)[..|stem + a + "/"|] == stem + b[..|a| + 1];
    }
  }

  lemma TreeOfPrefixGrows(prefix: string, entries: seq<Entry>, n: nat)
    requires n <= |entries|
    ensures TreeOf(prefix, entries[..n]).Keys <= TreeOf(prefix, entries).Keys
    decreases |entries| - n
  {
    if n < |entries| {
      assert entries[..n + 1][..n] == entries[..n];
      TreeOfPrefixGrows(prefix, entries, n + 1);
    } else {
      assert entries[..n] == entries;
    }
  }

  /** A file that is in the way of a new one, as an ancestor or below it. */
  ghost predicate InTheWay(files: map<string, File>, destination: string) {
    exists f :: f in files && (f + "/" <= destination || destination + "/" <= f)
  }

  lemma InTheWayIff(stem: string, files: map<string, File>, tree: Tree, relative: string)
    requires PlacedAt(stem, files, tree)
    ensures InTheWay(files, stem + relative) <==> exists name :: name in tree && (name + "/" <= relative || relative + "/" <= name)
  {
    forall name | name in tree
      ensures stem + name + "/" <= stem + relative <==> name + "/" <= relative
      ensures stem + relative + "/" <= stem + name <==> relative + "/" <= name
    {
      AncestorBelowStem(stem, name, relative);
      AncestorBelowStem(stem, relative, name);
    }
    if name :| name in tree && (name + "/" <= relative || relative + "/" <= name) {
      assert stem + name in files;
    }
    if f :| f in files && (f + "/" <= stem + relative || stem + relative + "/" <= f) {
      var name :| name in tree && f == stem + name;
    }
  }

  lemma NoOwnDescendant(relative: string)
    ensures !(relative + "/" <= relative)
  {
  }

  /** What the entries before i describe grows by entry i, and both are part of the whole. */
  lemma TreeStep(prefix: string, entries: seq<Entry>, i: nat)
    requires i < |entries|
    ensures var e := entries[i]; var before := TreeOf(prefix, entries[..i]);
            TreeOf(prefix, entries[..i + 1]) ==
            if prefix + "/" <= e.name then before[e.name[|prefix| + 1..] := File(e.mode, e.data)] else before
    ensures TreeOf(prefix, entries[..i + 1]).Keys <= TreeOf(prefix, entries).Keys
  {
    assert entries[..i + 1][..i] == entries[..i] && entries[..i + 1][i] == entries[i];
    TreeOfPrefixGrows(prefix, entries, i + 1);
  }

  lemma WayMakesConflict(tree: Tree, whole: Tree, relative: string)
    requires tree.Keys <= whole.Keys && relative in whole
    requires exists name :: name in tree && (name + "/" <= relative || relative + "/" <= name)
    ensures Conflicting(whole)
  {
  }

  lemma NoConflictStep(tree: Tree, relative: string, file: File)
    requires !Conflicting(tree) && !(exists name :: name in tree && (name + "/" <= relative || relative + "/" <= name))
    ensures !Conflicting(tree[relative := file])
  {
    NoOwnDescendant(relative);
  }

  /** Puts one file into place, unless the operating system refuses it or another file is in the way. */
  method PlaceFile(stem: string, root: string, relative: string, file: File, files: map<string, File>, failing: set<string>, ghost tree: Tree)
    returns (r: Option<map<string, File>>)
    requires root != "" && stem == Stem(Clean(root)) && ProperParts(Split(relative, '/')) && PlacedAt(stem, files, tree)
    ensures r.Some? <==> stem + relative !in failing && !InTheWay(files, stem + relative)
    ensures r.Some? ==> PlacedAt(stem, r.value, tree[relative := file])
  {
    JoinStaysBelow(root, relative);
    var destination := JoinPath(root, relative);
    if destination in failing || exists f | f in files :: f + "/" <= destination || destination + "/" <= f {
      return None;
    }
    PlacedStep(stem, files, tree, relative, file);
    r := Some(files[destination := file]);
  }

  /**
   * Writes the entries below a prefix into a staging directory, which may be relative. Every file lands strictly below
   * the directory, under its own name; it fails exactly when the operating system refuses a file or one file is in the
   * place of a directory that another needs.
   */
  method Materialize(root: string, prefix: string, entries: seq<Entry>, failing: set<string>) returns (r: Option<map<string, File>>)
    requires root != "" && (prefix == "data" || prefix == "config")
    requires forall e | e in entries :: SafeArchivePath(e.name)
    ensures r.Some? <==> !Refuses(Stem(Clean(root)), TreeOf(prefix, entries), failing) && !Conflicting(TreeOf(prefix, entries))
    ensures r.Some? ==> PlacedAt(Stem(Clean(root)), r.value, TreeOf(prefix, entries))
  {
    var stem := Stem(Clean(root));
    var files: map<string, File> := map[];
    ghost var tree: Tree := map[];
    for i := 0 to |entries|
      invariant tree == TreeOf(prefix, entries[..i]) && PlacedAt(stem, files, tree)
      invariant !Refuses(stem, tree, failing) && !Conflicting(tree)
    {
      var e := entries[i];
      TreeStep(prefix, entries, i);
      if prefix + "/" <= e.name {
        assert e in entries;
        var relative := e.name[|prefix| + 1..];
        RelativeIsProper(prefix, e.name);
        InTheWayIff(stem, files, tree, relative);
        var placed := PlaceFile(stem, root, relative, File(e.mode, e.data), files, failing, tree);
        ghost var whole := TreeOf(prefix, entries);
        if placed.None? {
          RefusedStep(stem, tree, whole, relative, failing);
          return None;
        }
        NoConflictStep(tree, relative, File(e.mode, e.data));
        tree := tree[relative := File(e.mode, e.data)];
        files := placed.value;
      }
    }
    assert entries[..|entries|] == entries;
    r := Some(files);
  }

  lemma RefusedStep(stem: string, tree: Tree, whole: Tree, relative: string, failing: set<string>)
    requires tree.Keys <= whole.Keys && relative in whole
    requires stem + relative in failing || exists name :: name in tree && (name + "/" <= relative || relative + "/" <= name)
    ensures Refuses(stem, whole, failing) || Conflicting(whole)
  {
    if stem + relative !in failing {
      WayMakesConflict(tree, whole, relative);
    }
  }

  // ---- The whole way ----

  lemma OtherPrefix(prefix: string, other: string, name: string)
    requires (prefix == "data" && other == "config") || (prefix == "config" && other == "data")
    ensures !(prefix + "/" <= other + "/" + name)
  {
    assert (prefix + "/")[0] != (other + "/" + name)[0];
  }

  /** The entries of a collection describe the collected directory again. */
  lemma CollectionRecoversTree(entries: seq<Entry>, data: Tree, config: Tree)
    requires IsCollection(entries, data, config)
    ensures TreeOf("data", entries) == data && TreeOf("config", entries) == config
  {
    CollectionRecovers(entries, "data", data, "config", config);
    CollectionRecovers(entries, "config", config, "data", data);
  }

  lemma TreeFileIn(prefix: string, tree: Tree, name: string)
    requires name in tree
    ensures var e := Entry(prefix + "/" + name, tree[name].mode, tree[name].data);
            FromTree(prefix, tree, e) && prefix + "/" <= e.name && e.name[|prefix| + 1..] == name
  {
  }

  lemma NotFromOther(prefix: string, other: string, otherTree: Tree, e: Entry, name: string)
    requires (prefix == "data" && other == "config") || (prefix == "config" && other == "data")
    requires e.name == prefix + "/" + name
    ensures !FromTree(other, otherTree, e)
  {
    forall n | n in otherTree
      ensures e != Entry(other + "/" + n, otherTree[n].mode, otherTree[n].data)
    {
      OtherPrefix(prefix, other, n);
    }
  }

  lemma NamedInTree(prefix: string, tree: Tree, e: Entry, name: string)
    requires FromTree(prefix, tree, e) && e.name == prefix + "/" + name
    ensures name in tree
  {
    var m :| m in tree && e == Entry(prefix + "/" + m, tree[m].mode, tree[m].data);
    if m != name {
      PrefixedNamesDiffer(prefix, m, name);
    }
  }

  lemma FileRecovered(entries: seq<Entry>, prefix: string, tree: Tree, name: string)
    requires DistinctKeys(EntryKey(), entries) && name in tree
    requires forall e :: FromTree(prefix, tree, e) ==> e in entries
    ensures name in TreeOf(prefix, entries) && TreeOf(prefix, entries)[name] == tree[name]
  {
    TreeOfMembers(prefix, entries);
    TreeFileIn(prefix, tree, name);
    var e := Entry(prefix + "/" + name, tree[name].mode, tree[name].data);
    assert e in entries;
  }

  lemma NothingElseRecovered(entries: seq<Entry>, prefix: string, tree: Tree, otherPrefix: string, other: Tree, name: string)
    requires DistinctKeys(EntryKey(), entries) && name in TreeOf(prefix, entries)
    requires forall e | e in entries :: FromTree(prefix, tree, e) || FromTree(otherPrefix, other, e)
    requires (prefix == "data" && otherPrefix == "config") || (prefix == "config" && otherPrefix == "data")
    ensures name in tree
  {
    TreeOfMembers(prefix, entries);
    var e :| e in entries && e.name == prefix + "/" + name;
    NotFromOther(prefix, otherPrefix, other, e, name);
    NamedInTree(prefix, tree, e, name);
  }

  lemma CollectionRecovers(entries: seq<Entry>, prefix: string, tree: Tree, otherPrefix: string, other: Tree)
    requires DistinctKeys(EntryKey(), entries)
    requires forall e :: e in entries <==> FromTree(prefix, tree, e) || FromTree(otherPrefix, other, e)
    requires (prefix == "data" && otherPrefix == "config") || (prefix == "config" && otherPrefix == "data")
    ensures TreeOf(prefix, entries) == tree
  {
    forall name | name in tree
      ensures name in TreeOf(prefix, entries) && TreeOf(prefix, entries)[name] == tree[name]
    {
      FileRecovered(entries, prefix, tree, name);
    }
    forall name | name in TreeOf(prefix, entries)
      ensures name in tree
    {
      NothingElseRecovered(entries, prefix, tree, otherPrefix, other, name);
    }
  }

  /** Tar as octets: reading back gives the entries, and the stream ends with two empty blocks. */
  datatype Tar = Tar(write: seq<TarEntry> -> Bytes, read: Bytes -> TarStream)

  ghost predicate TarLaw(t: Tar, c: Codec) {
    forall items ::
      && t.read(t.write(items)) == TarStream(items, true)
      && |t.write(items)| == TarSize(c, items) + 2 * 512
  }

  /** What restore reads from an artifact: nothing without a password, or when it is too large, does not open or is no valid archive. */
  ghost function RestoredEntries(t: Tar, c: Codec, k: Crypto, artifact: Bytes, password: Bytes): Option<seq<Entry>> {
    if password == [] || |artifact| > 0x1000_0000 then None
    else
      var plain := Opened(k, artifact, password);
      if plain.None? then None else Contents(c, t.read(plain.value))
  }

  /** The artifact that create writes for a collection. */
  ghost function Artifact(t: Tar, c: Codec, k: Crypto, entries: seq<Entry>, createdAt: string, password: Bytes, salt: Bytes, nonce: Bytes): Bytes {
    Sealed(k, t.write(Packed(c, entries, createdAt)), password, salt, nonce)
  }

  /** The hash manifest of a collection does not depend on the order of its entries. */
  lemma SameHashes(c: Codec, a: seq<Entry>, b: seq<Entry>)
    requires DistinctKeys(EntryKey(), a) && DistinctKeys(EntryKey(), b) && forall e :: e in a <==> e in b
    ensures FileHashes(c, a) == FileHashes(c, b)
  {
    FileHashesOf(c, a);
    FileHashesOf(c, b);
    var x, y := FileHashes(c, a), FileHashes(c, b);
    forall name | name in x
      ensures name in y && y[name] == x[name]
    {
      var e :| e in a && e.name == name;
      assert e in b;
    }
    forall name | name in y
      ensures name in x
    {
      var e :| e in b && e.name == name;
      assert e in a;
    }
  }

  /** All collections of two directories make the same archive. */
  lemma SamePacked(c: Codec, a: seq<Entry>, b: seq<Entry>, data: Tree, config: Tree, createdAt: string)
    requires RealTree(data) && RealTree(config) && IsCollection(a, data, config) && IsCollection(b, data, config)
    ensures Packed(c, a, createdAt) == Packed(c, b, createdAt)
  {
    assert forall e :: e in a <==> e in b;
    SameHashes(c, a, b);
    CollectionIsCollected(a, data, config);
    CollectionIsCollected(b, data, config);
    var manifest := ManifestEntry(c, a, createdAt);
    DistinctAppend(EntryKey(), a, manifest);
    DistinctAppend(EntryKey(), b, manifest);
    assert forall e :: e in a + [manifest] <==> e in b + [manifest];
    SameMembersSameSort(EntryKey(), a + [manifest], b + [manifest]);
  }

  /** What create writes for a collection, or nothing: without a password, over the size limit, or when the output fails. */
  ghost function Created(t: Tar, c: Codec, k: Crypto, entries: seq<Entry>, createdAt: string, password: Bytes, salt: Bytes, nonce: Bytes,
                         writable: bool): Option<Bytes> {
    if password != [] && Buffered(c, Packed(c, entries, createdAt)) <= 0x1000_0000 && writable
    then Some(Artifact(t, c, k, entries, createdAt, password, salt, nonce)) else None
  }

  /** Collects, packs and seals both directories; only a missing password, a failing operation or the size refuses it. */
  method Create(t: Tar, c: Codec, k: Crypto, data: Tree, config: Tree, createdAt: string, password: Bytes, salt: Bytes, nonce: Bytes,
                unreadable: set<string>, writable: bool)
    returns (r: Option<Bytes>)
    requires RealTree(data) && RealTree(config) && |salt| == SALT_LENGTH && |nonce| == NONCE_LENGTH
    ensures r.Some? ==> password != [] && writable && Readable("data", data, unreadable) && Readable("config", config, unreadable)
    ensures Readable("data", data, unreadable) && Readable("config", config, unreadable) ==>
              forall entries | IsCollection(entries, data, config) ::
                r == Created(t, c, k, entries, createdAt, password, salt, nonce, writable)
  {
    if password == [] {
      return None;
    }
    var collected := Collect(data, config, unreadable);
    if collected.None? {
      return None;
    }
    forall entries | IsCollection(entries, data, config)
      ensures Packed(c, entries, createdAt) == Packed(c, collected.value, createdAt)
    {
      SamePacked(c, entries, collected.value, data, config, createdAt);
    }
    var packed := MakeArchive(c, collected.value, createdAt);
    if packed.None? {
      return None;
    }
    var artifact := Encrypt(k, t.write(packed.value), password, salt, nonce);
    r := if writable then Some(artifact) else None;
  }

  method ReadBackup(t: Tar, c: Codec, k: Crypto, artifact: Bytes, password: Bytes) returns (r: Option<seq<Entry>>)
    requires Lawful(c)
    ensures r == RestoredEntries(t, c, k, artifact, password)
  {
    if password == [] || |artifact| > MAX_BACKUP {
      return None;
    }
    var plain := Decrypt(k, artifact, password);
    if plain.None? {
      return None;
    }
    r := ReadArchive(c, t.read(plain.value));
  }

  /** Opening an artifact gives back its archive, when its size is admitted. */
  lemma RestoredFromArtifact(t: Tar, c: Codec, k: Crypto, entries: seq<Entry>, createdAt: string, password: Bytes, salt: Bytes, nonce: Bytes)
    requires TarLaw(t, c) && AeadLaw(k) && |salt| == SALT_LENGTH && |nonce| == NONCE_LENGTH && password != []
    ensures var packed := Packed(c, entries, createdAt);
            RestoredEntries(t, c, k, Artifact(t, c, k, entries, createdAt, password, salt, nonce), password) ==
            if TarSize(c, packed) <= 0x1000_0000 - 2 * 512 - 64 then Contents(c, TarStream(packed, true)) else None
  {
    FrameRoundTrip(k, t.write(Packed(c, entries, createdAt)), password, salt, nonce);
  }

  lemma SortedRecoversTree(entries: seq<Entry>, data: Tree, config: Tree)
    requires IsCollection(entries, data, config)
    ensures TreeOf("data", Sort(EntryKey(), entries)) == data && TreeOf("config", Sort(EntryKey(), entries)) == config
  {
    var sorted := Sort(EntryKey(), entries);
    SameMembers(sorted, entries);
    DistinctPermuted(EntryKey(), entries, sorted);
    CollectionRecoversTree(sorted, data, config);
  }

  /**
   * Restoring what was created gives both directories back, file by file with contents and permission bits, exactly
   * when the archive leaves room for its end marker and the frame and the manifest can carry every name; in every
   * other case that create accepts, the artifact is refused.
   */
  lemma BackupRoundTrip(t: Tar, c: Codec, k: Crypto, data: Tree, config: Tree, entries: seq<Entry>, createdAt: string,
                        password: Bytes, salt: Bytes, nonce: Bytes)
    requires Lawful(c) && TarLaw(t, c) && AeadLaw(k) && |salt| == SALT_LENGTH && |nonce| == NONCE_LENGTH && password != []
    requires RealTree(data) && RealTree(config) && IsCollection(entries, data, config)
    requires Buffered(c, Packed(c, entries, createdAt)) <= 0x1000_0000
    ensures var restored := RestoredEntries(t, c, k, Artifact(t, c, k, entries, createdAt, password, salt, nonce), password);
            if TarSize(c, Packed(c, entries, createdAt)) <= 0x1000_0000 - 2 * 512 - 64 && Recodable(c, entries)
            then restored.Some? && TreeOf("data", restored.value) == data && TreeOf("config", restored.value) == config
            else restored.None?
  {
    CollectionIsCollected(entries, data, config);
    RestoredFromArtifact(t, c, k, entries, createdAt, password, salt, nonce);
    ArchiveRoundTrip(c, entries, createdAt);
    if Recodable(c, entries) {
      SortedRecoversTree(entries, data, config);
    }
  }

  /** Create accepts archives whose artifact restore then refuses for its size. */
  lemma CreateOutgrowsRestore(t: Tar, c: Codec, k: Crypto, entries: seq<Entry>, createdAt: string, password: Bytes, salt: Bytes, nonce: Bytes)
    requires TarLaw(t, c) && AeadLaw(k) && |salt| == SALT_LENGTH && |nonce| == NONCE_LENGTH
    requires 0x1000_0000 - 2 * 512 - 64 < TarSize(c, Packed(c, entries, createdAt)) <= 0x1000_0000
    ensures Buffered(c, Packed(c, entries, createdAt)) <= 0x1000_0000
    ensures |Artifact(t, c, k, entries, createdAt, password, salt, nonce)| > 0x1000_0000
  {
    var packed := Packed(c, entries, createdAt);
    BufferedGrows(c, packed, |packed|);
    assert packed[..|packed|] == packed;
    FrameRoundTrip(k, t.write(packed), password, salt, nonce);
  }

  // ---- Restoring as a whole ----

  /** Every previous tree with files is intact under one of its two names, or both new trees are in place. */
  ghost predicate SafeState(original: Trees, trees: Trees, items: seq<Publication>, stamps: seq<string>, data: Tree, config: Tree)
    requires |items| == |stamps| == 2
  {
    AllKept(original, trees, items, stamps) || BothInPlace(trees, items, data, config)
  }

  ghost predicate BothInPlace(trees: Trees, items: seq<Publication>, data: Tree, config: Tree)
    requires |items| == 2
  {
    Holds(trees, items[0].destination, data) && Holds(trees, items[1].destination, config)
  }

  ghost predicate SafeSince(original: Trees, history: seq<Trees>, from: nat, items: seq<Publication>, stamps: seq<string>, data: Tree, config: Tree)
    requires |items| == |stamps| == 2
  {
    forall k | from <= k < |history| :: SafeState(original, history[k], items, stamps, data, config)
  }

  /** A change at a staging path changes no destination and no set-aside name. */
  lemma StagingIsApart(original: Trees, before: Trees, after: Trees, items: seq<Publication>, stamps: seq<string>,
                       i: nat, data: Tree, config: Tree)
    requires |items| == |stamps| == 2 && i < 2 && Separate(items, stamps)
    requires forall p | p != items[i].temp :: SameAt(before, after, p)
    ensures forall j | 0 <= j < 2 :: SameAt(before, after, items[j].destination)
    ensures AllKept(original, before, items, stamps) ==> AllKept(original, after, items, stamps)
    ensures BothInPlace(before, items, data, config) ==> BothInPlace(after, items, data, config)
  {
    forall j | 0 <= j < 2
      ensures SameAt(before, after, items[j].destination)
      ensures SameAt(before, after, OldPath(items[j].destination, stamps[j]))
    {
    }
    if AllKept(original, before, items, stamps) {
      forall j | 0 <= j < 2
        ensures ItemKept(original, after, items[j].destination, OldPath(items[j].destination, stamps[j]))
      {
        assert ItemKept(original, before, items[j].destination, OldPath(items[j].destination, stamps[j]));
      }
    }
  }

  lemma RolledBackElsewhere(original: Trees, staged: Trees, before: Trees, after: Trees, items: seq<Publication>, installed: nat)
    requires |items| == 2 && forall j | 0 <= j < 2 :: SameAt(before, after, items[j].destination)
    requires RolledBack(original, staged, before, items, installed)
    ensures RolledBack(original, staged, after, items, installed)
  {
    forall j | 0 <= j < 2
      ensures if j < installed && items[j].destination !in original
              then items[j].temp in staged && Holds(after, items[j].destination, staged[items[j].temp])
              else SameAt(original, after, items[j].destination)
    {
      assert SameAt(before, after, items[j].destination);
    }
  }

  /** Nothing is published yet: every destination is as it was, and previous trees were kept since the restore began. */
  ghost predicate NotPublished(original: Trees, fs: FileSystem, from: nat, items: seq<Publication>, stamps: seq<string>,
                               data: Tree, config: Tree)
    requires |items| == |stamps| == 2
    reads fs
  {
    && from <= |fs.history| && SafeSince(original, fs.history, from, items, stamps, data, config)
    && forall j | 0 <= j < 2 ::
         SameAt(original, fs.trees, items[j].destination) && SameAt(original, fs.trees, OldPath(items[j].destination, stamps[j]))
  }

  lemma SameIsKept(original: Trees, trees: Trees, items: seq<Publication>, stamps: seq<string>)
    requires |items| == |stamps| == 2 && forall j | 0 <= j < 2 :: SameAt(original, trees, items[j].destination)
    ensures AllKept(original, trees, items, stamps)
  {
  }

  lemma NothingInstalled(original: Trees, staged: Trees, trees: Trees, items: seq<Publication>)
    requires |items| == 2 && forall j | 0 <= j < 2 :: SameAt(original, trees, items[j].destination)
    ensures RolledBack(original, staged, trees, items, 0)
  {
  }

  /** The staging directory holds exactly the files that were written into it. */
  method StageTree(fs: FileSystem, items: seq<Publication>, ghost stamps: seq<string>, i: nat, files: map<string, File>, tree: Tree,
                   ghost original: Trees, ghost from: nat, ghost data: Tree, ghost config: Tree)
    requires |items| == |stamps| == 2 && i < 2 && Separate(items, stamps) && items[i].temp !in fs.trees
    requires PlacedAt(Stem(Clean(items[i].temp)), files, tree) && NotPublished(original, fs, from, items, stamps, data, config)
    modifies fs`trees, fs`history
    ensures fs.trees == old(fs.trees)[items[i].temp := tree] && fs.history == old(fs.history) + [fs.trees]
    ensures NotPublished(original, fs, from, items, stamps, data, config)
  {
    fs.trees := fs.trees[items[i].temp := tree];
    fs.history := fs.history + [fs.trees];
    SameIsKept(original, fs.trees, items, stamps);
  }

  /** The deferred removal of a staging directory. */
  method RemoveStaging(fs: FileSystem, ghost original: Trees, ghost from: nat, ghost items: seq<Publication>,
                       ghost stamps: seq<string>, ghost i: nat, root: string, ghost data: Tree, ghost config: Tree)
    requires |items| == |stamps| == 2 && i < 2 && root == items[i].temp && Separate(items, stamps) && from <= |fs.history|
    requires SafeState(original, fs.trees, items, stamps, data, config) && !fs.undoing
    requires SafeSince(original, fs.history, from, items, stamps, data, config)
    modifies fs`trees, fs`history, fs`faults, fs`undoFaults
    ensures old(fs.history) <= fs.history && SafeSince(original, fs.history, from, items, stamps, data, config)
    ensures SafeState(original, fs.trees, items, stamps, data, config)
    ensures AllKept(original, old(fs.trees), items, stamps) ==> AllKept(original, fs.trees, items, stamps)
    ensures BothInPlace(old(fs.trees), items, data, config) ==> BothInPlace(fs.trees, items, data, config)
    ensures forall j | 0 <= j < 2 :: SameAt(old(fs.trees), fs.trees, items[j].destination)
    ensures forall p | p != root :: SameAt(old(fs.trees), fs.trees, p)
    ensures old(fs.faults) <= fs.faults && fs.undoFaults == old(fs.undoFaults)
    ensures fs.faults == old(fs.faults) ==> root !in fs.trees
  {
    ghost var before, earlier := fs.trees, fs.history;
    var _ := fs.RemoveAll(root);
    StagingIsApart(original, before, fs.trees, items, stamps, i, data, config);
    forall k | |earlier| <= k < |fs.history|
      ensures SafeState(original, fs.history[k], items, stamps, data, config)
    {
      StagingIsApart(original, before, fs.history[k], items, stamps, i, data, config);
    }
  }

  /** No previous tree is left under its second name. */
  ghost predicate NoneAside(original: Trees, trees: Trees, items: seq<Publication>, stamps: seq<string>)
    requires |items| == |stamps|
  {
    forall i | 0 <= i < |items| && items[i].destination in original :: OldPath(items[i].destination, stamps[i]) !in trees
  }

  /** Staging changes no destination, and marks in the record are not part of what is kept. */
  lemma KeptFromStaged(original: Trees, staged: Trees, trees: Trees, items: seq<Publication>, record: seq<Publication>,
                       stamps: seq<string>)
    requires |items| == |record| == |stamps| == 2 && AllKept(staged, trees, record, stamps)
    requires forall j | 0 <= j < 2 ::
               items[j].destination == record[j].destination && SameAt(original, staged, items[j].destination)
    ensures AllKept(original, trees, items, stamps)
  {
    forall j | 0 <= j < 2
      ensures ItemKept(original, trees, items[j].destination, OldPath(items[j].destination, stamps[j]))
    {
      assert ItemKept(staged, trees, record[j].destination, OldPath(record[j].destination, stamps[j]));
    }
  }

  lemma InPlaceFromStaged(staged: Trees, trees: Trees, items: seq<Publication>, record: seq<Publication>, data: Tree, config: Tree)
    requires |items| == |record| == 2 && AllInstalled(staged, trees, record)
    requires forall j | 0 <= j < 2 :: items[j].destination == record[j].destination && items[j].temp == record[j].temp
    requires Holds(staged, items[0].temp, data) && Holds(staged, items[1].temp, config)
    ensures BothInPlace(trees, items, data, config)
  {
    assert record[0].temp in staged && record[1].temp in staged;
  }

  /** The two trees of a restore by their staging directories. */
  ghost function NewTrees(items: seq<Publication>, data: Tree, config: Tree): Trees
    requires |items| == 2
  {
    map[items[0].temp := data, items[1].temp := config]
  }

  lemma RolledBackFromStaged(original: Trees, staged: Trees, trees: Trees, items: seq<Publication>, record: seq<Publication>,
                             stamps: seq<string>, data: Tree, config: Tree, installed: nat)
    requires |items| == |record| == |stamps| == 2 && Separate(items, stamps) && RolledBack(staged, staged, trees, record, installed)
    requires forall j | 0 <= j < 2 ::
               && items[j].destination == record[j].destination && items[j].temp == record[j].temp
               && SameAt(original, staged, items[j].destination)
    requires Holds(staged, items[0].temp, data) && Holds(staged, items[1].temp, config)
    ensures RolledBack(original, NewTrees(items, data, config), trees, items, installed)
  {
    assert items[0].temp != items[1].temp;
    forall j | 0 <= j < 2
      ensures if j < installed && items[j].destination !in original
              then items[j].temp in NewTrees(items, data, config)
                   && Holds(trees, items[j].destination, NewTrees(items, data, config)[items[j].temp])
              else SameAt(original, trees, items[j].destination)
    {
      assert SameAt(original, staged, record[j].destination);
    }
  }

  lemma StagedIsPresent(original: Trees, staged: Trees, items: seq<Publication>, record: seq<Publication>, stamps: seq<string>)
    requires |items| == |record| == |stamps| == 2 && items[0].temp in staged && items[1].temp in staged
    requires forall j | 0 <= j < 2 ::
               && items[j].destination == record[j].destination && items[j].temp == record[j].temp
               && SameAt(original, staged, OldPath(items[j].destination, stamps[j]))
    ensures !StagedMissing(staged, record)
    ensures AsideTaken(staged, record, stamps) ==> AsideTaken(original, items, stamps)
  {
    if i :| 0 <= i < 2 && OldPath(record[i].destination, stamps[i]) in staged {
      assert OldPath(items[i].destination, stamps[i]) in original;
    }
  }

  /** Every state of the transaction is safe: until the commit previous trees are kept, afterwards both trees are in place. */
  lemma SafeFromStaged(original: Trees, staged: Trees, history: seq<Trees>, from: nat, commit: nat, items: seq<Publication>,
                       record: seq<Publication>, stamps: seq<string>, data: Tree, config: Tree)
    requires |items| == |record| == |stamps| == 2 && from <= commit <= |history|
    requires forall j | 0 <= j < 2 ::
               && items[j].destination == record[j].destination && items[j].temp == record[j].temp
               && SameAt(original, staged, items[j].destination)
    requires Holds(staged, items[0].temp, data) && Holds(staged, items[1].temp, config)
    requires forall k | from <= k < commit :: AllKept(staged, history[k], record, stamps)
    requires forall k | commit <= k < |history| :: AllInstalled(staged, history[k], record)
    ensures SafeSince(original, history, from, items, stamps, data, config)
  {
    forall k | from <= k < |history|
      ensures SafeState(original, history[k], items, stamps, data, config)
    {
      if k < commit {
        KeptFromStaged(original, staged, history[k], items, record, stamps);
      } else {
        InPlaceFromStaged(staged, history[k], items, record, data, config);
      }
    }
  }

  /** What a failed transaction leaves, seen from before the staging. */
  lemma FailedFromStaged(original: Trees, staged: Trees, trees: Trees, items: seq<Publication>, record: seq<Publication>,
                         stamps: seq<string>, data: Tree, config: Tree, undone: bool, installed: nat)
    requires |items| == |record| == |stamps| == 2 && Separate(items, stamps) && AllKept(staged, trees, record, stamps)
    requires forall j | 0 <= j < 2 ::
               && items[j].destination == record[j].destination && items[j].temp == record[j].temp
               && SameAt(original, staged, items[j].destination)
               && SameAt(original, staged, OldPath(items[j].destination, stamps[j]))
    requires Holds(staged, items[0].temp, data) && Holds(staged, items[1].temp, config)
    requires undone ==> RolledBack(staged, staged, trees, record, installed)
    ensures AllKept(original, trees, items, stamps)
    ensures undone ==> RolledBack(original, NewTrees(items, data, config), trees, items, installed)
    ensures !StagedMissing(staged, record) && (AsideTaken(staged, record, stamps) ==> AsideTaken(original, items, stamps))
    ensures (exists i :: 0 <= i < 2 && record[i].destination in staged) ==>
              items[0].destination in original || items[1].destination in original
  {
    KeptFromStaged(original, staged, trees, items, record, stamps);
    StagedIsPresent(original, staged, items, record, stamps);
    if undone {
      RolledBackFromStaged(original, staged, trees, items, record, stamps, data, config, installed);
    }
  }

  lemma NoneAsideFromStaged(original: Trees, staged: Trees, trees: Trees, items: seq<Publication>, record: seq<Publication>, stamps: seq<string>)
    requires |items| == |record| == |stamps| && NoneAside(staged, trees, record, stamps)
    requires forall j | 0 <= j < |items| ::
               items[j].destination == record[j].destination && SameAt(original, staged, items[j].destination)
    ensures NoneAside(original, trees, items, stamps)
  {
    forall i | 0 <= i < |items| && items[i].destination in original
      ensures OldPath(items[i].destination, stamps[i]) !in trees
    {
      assert record[i].destination in staged;
    }
  }

  lemma NoneAsideElsewhere(original: Trees, before: Trees, after: Trees, items: seq<Publication>, stamps: seq<string>, i: nat)
    requires |items| == |stamps| && i < |items| && Separate(items, stamps) && NoneAside(original, before, items, stamps)
    requires forall p | p != items[i].temp :: SameAt(before, after, p)
    ensures NoneAside(original, after, items, stamps)
  {
    forall j | 0 <= j < |items| && items[j].destination in original
      ensures OldPath(items[j].destination, stamps[j]) !in after
    {
      assert SameAt(before, after, OldPath(items[j].destination, stamps[j]));
    }
  }

  /** The transaction over the two staged trees. */
  method PublishBoth(fs: FileSystem, targets: seq<Publication>, replace: bool, stamps: seq<string>,
                     ghost original: Trees, ghost data: Tree, ghost config: Tree)
    returns (r: Result<(), RestoreError>, ghost installed: nat)
    requires |targets| == |stamps| == 2 && Separate(targets, stamps) && targets[0].setAside == "" && targets[1].setAside == ""
    requires Holds(fs.trees, targets[0].temp, data) && Holds(fs.trees, targets[1].temp, config) && !fs.undoing
    requires forall j | 0 <= j < 2 ::
               && SameAt(original, fs.trees, targets[j].destination)
               && SameAt(original, fs.trees, OldPath(targets[j].destination, stamps[j]))
    modifies fs
    ensures old(fs.history) <= fs.history && SafeSince(original, fs.history, |old(fs.history)|, targets, stamps, data, config)
    ensures if r.Ok? then BothInPlace(fs.trees, targets, data, config) else AllKept(original, fs.trees, targets, stamps)
    ensures !fs.undoing && old(fs.faults) <= fs.faults && old(fs.undoFaults) <= fs.undoFaults
    ensures r.Err? && fs.undoFaults == old(fs.undoFaults) ==>
              installed < 2 && RolledBack(original, NewTrees(targets, data, config), fs.trees, targets, installed)
    ensures r != Err(Refused) && (r == Err(DestinationExists) ==> !replace)
    ensures r == Err(DestinationExists) ==> targets[0].destination in original || targets[1].destination in original
    ensures r == Err(OperationFailed) ==> old(fs.faults) < fs.faults || AsideTaken(original, targets, stamps)
    ensures r.Ok? && fs.faults == old(fs.faults) ==> NoneAside(original, fs.trees, targets, stamps)
  {
    ghost var staged, from, undone := fs.trees, |fs.history|, fs.undoFaults;
    var items := new Publication[2](i requires 0 <= i < 2 => targets[i]);
    assert items[..] == targets;
    ghost var record, commit;
    r, record, installed, commit := Publish(fs, items, replace, stamps);
    SafeFromStaged(original, staged, fs.history, from, commit, targets, record, stamps, data, config);
    if r.Ok? {
      InPlaceFromStaged(staged, fs.trees, targets, record, data, config);
      if NoneAside(staged, fs.trees, record, stamps) {
        NoneAsideFromStaged(original, staged, fs.trees, targets, record, stamps);
      }
    } else {
      FailedFromStaged(original, staged, fs.trees, targets, record, stamps, data, config, fs.undoFaults == undone, installed);
    }
  }

  /** Whether one of the destinations may exist. */
  method AnyMayExist(fs: FileSystem, a: string, b: string) returns (may: bool)
    requires !fs.undoing
    modifies fs`faults, fs`undoFaults
    ensures !may ==> a !in fs.trees && b !in fs.trees
    ensures old(fs.faults) <= fs.faults && fs.undoFaults == old(fs.undoFaults)
    ensures may ==> a in fs.trees || b in fs.trees || old(fs.faults) < fs.faults
  {
    var first := fs.Inspect(a);
    if first != Absent {
      return true;
    }
    var second := fs.Inspect(b);
    may := second != Absent;
  }

  /** The tree cannot be written into its staging directory. */
  ghost predicate Unstageable(item: Publication, tree: Tree, failing: set<string>) {
    Refuses(Stem(Clean(item.temp)), tree, failing) || Conflicting(tree)
  }

  /** Writes both trees into their staging directories, or leaves the destinations as they are. */
  method StageBoth(fs: FileSystem, items: seq<Publication>, stamps: seq<string>, entries: seq<Entry>, failing: set<string>)
    returns (ok: bool)
    requires |items| == |stamps| == 2 && Separate(items, stamps) && forall e | e in entries :: SafeArchivePath(e.name)
    requires !fs.undoing && forall j | 0 <= j < 2 :: items[j].temp != "" && items[j].temp !in fs.trees
    modifies fs`trees, fs`history, fs`faults, fs`undoFaults
    ensures old(fs.history) <= fs.history && old(fs.faults) <= fs.faults && fs.undoFaults == old(fs.undoFaults)
    ensures NotPublished(old(fs.trees), fs, |old(fs.history)|, items, stamps, TreeOf("data", entries), TreeOf("config", entries))
    ensures ok ==> Holds(fs.trees, items[0].temp, TreeOf("data", entries))
                   && Holds(fs.trees, items[1].temp, TreeOf("config", entries))
    ensures !ok ==> old(fs.faults) < fs.faults || Unstageable(items[0], TreeOf("data", entries), failing)
                    || Unstageable(items[1], TreeOf("config", entries), failing)
  {
    ghost var original, from := fs.trees, |fs.history|;
    ok := fs.Try();
    if !ok {
      return;
    }
    var dataFiles := Materialize(items[0].temp, "data", entries, failing);
    if dataFiles.None? {
      return false;
    }
    var data, config := TreeOf("data", entries), TreeOf("config", entries);
    StageTree(fs, items, stamps, 0, dataFiles.value, data, original, from, data, config);
    ok := fs.Try();
    if !ok {
      return;
    }
    var configFiles := Materialize(items[1].temp, "config", entries, failing);
    if configFiles.None? {
      return false;
    }
    StageTree(fs, items, stamps, 1, configFiles.value, config, original, from, data, config);
    ok := true;
  }

  /** Stages both trees, publishes them and removes what is left in the staging directories. */
  method Install(fs: FileSystem, items: seq<Publication>, stamps: seq<string>, replace: bool, entries: seq<Entry>, failing: set<string>)
    returns (r: Result<(), RestoreError>, ghost installed: nat)
    requires |items| == |stamps| == 2 && Separate(items, stamps) && forall e | e in entries :: SafeArchivePath(e.name)
    requires forall j | 0 <= j < 2 :: items[j].temp != "" && items[j].temp !in fs.trees && items[j].setAside == ""
    requires !fs.undoing
    modifies fs
    ensures old(fs.history) <= fs.history
    ensures SafeSince(old(fs.trees), fs.history, |old(fs.history)|, items, stamps, TreeOf("data", entries), TreeOf("config", entries))
    ensures if r.Ok? then BothInPlace(fs.trees, items, TreeOf("data", entries), TreeOf("config", entries))
            else AllKept(old(fs.trees), fs.trees, items, stamps)
    ensures !fs.undoing && old(fs.faults) <= fs.faults && old(fs.undoFaults) <= fs.undoFaults
    ensures r.Err? && fs.undoFaults == old(fs.undoFaults) ==>
              installed < 2 && RolledBack(old(fs.trees), NewTrees(items, TreeOf("data", entries), TreeOf("config", entries)), fs.trees,
                                          items, installed)
    ensures r != Err(Refused) && (r == Err(DestinationExists) ==> !replace)
    ensures r == Err(DestinationExists) ==> items[0].destination in old(fs.trees) || items[1].destination in old(fs.trees)
    ensures r == Err(OperationFailed) ==>
              old(fs.faults) < fs.faults || AsideTaken(old(fs.trees), items, stamps)
              || Unstageable(items[0], TreeOf("data", entries), failing) || Unstageable(items[1], TreeOf("config", entries), failing)
    ensures fs.faults == old(fs.faults) ==> items[0].temp !in fs.trees && items[1].temp !in fs.trees
    ensures r.Ok? && fs.faults == old(fs.faults) ==> NoneAside(old(fs.trees), fs.trees, items, stamps)
  {
    ghost var original, from, undone := fs.trees, |fs.history|, fs.undoFaults;
    var data, config := TreeOf("data", entries), TreeOf("config", entries);
    var staged := StageBoth(fs, items, stamps, entries, failing);
    SameIsKept(original, fs.trees, items, stamps);
    NothingInstalled(original, NewTrees(items, data, config), fs.trees, items);
    r, installed := Err(OperationFailed), 0;
    if staged {
      r, installed := PublishBoth(fs, items, replace, stamps, original, data, config);
    }
    ghost var left := fs.trees;
    RemoveStaging(fs, original, from, items, stamps, 1, items[1].temp, data, config);
    ghost var between := fs.trees;
    RemoveStaging(fs, original, from, items, stamps, 0, items[0].temp, data, config);
    if r.Err? && fs.undoFaults == undone {
      RolledBackElsewhere(original, NewTrees(items, data, config), left, between, items, installed);
      RolledBackElsewhere(original, NewTrees(items, data, config), between, fs.trees, items, installed);
    }
    if r.Ok? && NoneAside(original, left, items, stamps) {
      NoneAsideElsewhere(original, left, between, items, stamps, 1);
      NoneAsideElsewhere(original, between, fs.trees, items, stamps, 0);
    }
    assert SameAt(between, fs.trees, items[1].temp);
  }

  /** Restores entries that were read: the check of the destinations, then the installation. */
  method RestoreEntries(fs: FileSystem, items: seq<Publication>, stamps: seq<string>, replace: bool, entries: seq<Entry>, failing: set<string>)
    returns (r: Result<(), RestoreError>, ghost installed: nat)
    requires |items| == |stamps| == 2 && Separate(items, stamps) && forall e | e in entries :: SafeArchivePath(e.name)
    requires forall j | 0 <= j < 2 :: items[j].temp != "" && items[j].temp !in fs.trees && items[j].setAside == ""
    requires !fs.undoing
    modifies fs
    ensures old(fs.history) <= fs.history
    ensures SafeSince(old(fs.trees), fs.history, |old(fs.history)|, items, stamps, TreeOf("data", entries), TreeOf("config", entries))
    ensures if r.Ok? then BothInPlace(fs.trees, items, TreeOf("data", entries), TreeOf("config", entries))
            else AllKept(old(fs.trees), fs.trees, items, stamps)
    ensures !fs.undoing && old(fs.faults) <= fs.faults && old(fs.undoFaults) <= fs.undoFaults
    ensures r.Err? && fs.undoFaults == old(fs.undoFaults) ==>
              installed < 2 && RolledBack(old(fs.trees), NewTrees(items, TreeOf("data", entries), TreeOf("config", entries)), fs.trees,
                                          items, installed)
    ensures r != Err(Refused) && (r == Err(DestinationExists) ==> !replace)
    ensures r == Err(DestinationExists) ==>
              old(fs.faults) < fs.faults || items[0].destination in old(fs.trees) || items[1].destination in old(fs.trees)
    ensures r == Err(OperationFailed) ==>
              old(fs.faults) < fs.faults || AsideTaken(old(fs.trees), items, stamps)
              || Unstageable(items[0], TreeOf("data", entries), failing) || Unstageable(items[1], TreeOf("config", entries), failing)
    ensures fs.faults == old(fs.faults) ==> items[0].temp !in fs.trees && items[1].temp !in fs.trees
    ensures r.Ok? && fs.faults == old(fs.faults) ==> NoneAside(old(fs.trees), fs.trees, items, stamps)
    ensures r == Err(DestinationExists) ==> fs.trees == old(fs.trees) && fs.history == old(fs.history)
    ensures !replace && (items[0].destination in old(fs.trees) || items[1].destination in old(fs.trees)) ==> r == Err(DestinationExists)
  {
    SameIsKept(fs.trees, fs.trees, items, stamps);
    NothingInstalled(fs.trees, NewTrees(items, TreeOf("data", entries), TreeOf("config", entries)), fs.trees, items);
    installed := 0;
    if !replace {
      var may := AnyMayExist(fs, items[0].destination, items[1].destination);
      if may {
        return Err(DestinationExists), installed;
      }
    }
    r, installed := Install(fs, items, stamps, replace, entries, failing);
  }

  /**
   * Restores a backup. A refused artifact changes nothing. Success puts both restored trees in place; after a failure,
   * and in every state on the way, each previous tree is intact under one of its two names or both restored trees are
   * in place. When the calls of the rollback succeed, every previous tree is at its destination again. A destination that
   * exists is refused without the replace flag, and then nothing has changed in any state.
   */
  method Restore(t: Tar, c: Codec, k: Crypto, fs: FileSystem, artifact: Bytes, password: Bytes, items: seq<Publication>,
                 stamps: seq<string>, replace: bool, failing: set<string>)
    returns (r: Result<(), RestoreError>, ghost entries: seq<Entry>, ghost installed: nat)
    requires Lawful(c) && |items| == |stamps| == 2 && Separate(items, stamps) && !fs.undoing
    requires forall j | 0 <= j < 2 :: items[j].temp != "" && items[j].temp !in fs.trees && items[j].setAside == ""
    modifies fs
    ensures r == Err(Refused) <==> RestoredEntries(t, c, k, artifact, password).None?
    ensures r == Err(Refused) ==> fs.trees == old(fs.trees) && fs.history == old(fs.history)
    ensures r != Err(Refused) ==> RestoredEntries(t, c, k, artifact, password) == Some(entries)
    ensures old(fs.history) <= fs.history && !fs.undoing && old(fs.faults) <= fs.faults && old(fs.undoFaults) <= fs.undoFaults
    ensures r != Err(Refused) ==>
              SafeSince(old(fs.trees), fs.history, |old(fs.history)|, items, stamps, TreeOf("data", entries), TreeOf("config", entries))
    ensures r.Ok? ==> BothInPlace(fs.trees, items, TreeOf("data", entries), TreeOf("config", entries))
    ensures r.Err? ==> AllKept(old(fs.trees), fs.trees, items, stamps)
    ensures r.Err? && r != Err(Refused) && fs.undoFaults == old(fs.undoFaults) ==>
              installed < 2 && RolledBack(old(fs.trees), NewTrees(items, TreeOf("data", entries), TreeOf("config", entries)), fs.trees,
                                          items, installed)
    ensures r == Err(DestinationExists) ==> !replace
    ensures r == Err(DestinationExists) ==>
              old(fs.faults) < fs.faults || items[0].destination in old(fs.trees) || items[1].destination in old(fs.trees)
    ensures r == Err(OperationFailed) ==>
              old(fs.faults) < fs.faults || AsideTaken(old(fs.trees), items, stamps)
              || Unstageable(items[0], TreeOf("data", entries), failing) || Unstageable(items[1], TreeOf("config", entries), failing)
    ensures fs.faults == old(fs.faults) ==> items[0].temp !in fs.trees && items[1].temp !in fs.trees
    ensures r.Ok? && fs.faults == old(fs.faults) ==> NoneAside(old(fs.trees), fs.trees, items, stamps)
    ensures r == Err(DestinationExists) ==> fs.trees == old(fs.trees) && fs.history == old(fs.history)
    ensures !replace && (items[0].destination in old(fs.trees) || items[1].destination in old(fs.trees)) ==>
              r == Err(DestinationExists) || r == Err(Refused)
  {
    entries, installed := [], 0;
    var read := ReadBackup(t, c, k, artifact, password);
    if read.None? {
      SameIsKept(fs.trees, fs.trees, items, stamps);
      return Err(Refused), entries, installed;
    }
    entries := read.value;
    RestoredAreSafe(t, c, k, artifact, password);
    r, installed := RestoreEntries(fs, items, stamps, replace, read.value, failing);
  }

  lemma RestoredAreSafe(t: Tar, c: Codec, k: Crypto, artifact: Bytes, password: Bytes)
    requires RestoredEntries(t, c, k, artifact, password).Some?
    ensures forall e | e in RestoredEntries(t, c, k, artifact, password).value :: SafeArchivePath(e.name)
  {
    var plain := Opened(k, artifact, password);
    var items := t.read(plain.value).items;
    EntriesFromMembers(items);
    SameMembers(Sort(EntryKey(), EntriesFrom(items)), EntriesFrom(items));
  }
}
