/**
 * The backup archive: the writer with its hash manifest and the reader that checks it. A tar stream is its list of
 * entries; SHA-256, JSON and the size of a tar header are functions with the laws stated in Lawful.
 */
module Archive {
  import opened Basics
  import opened Order
  import opened Paths

  const MAX_BACKUP: nat := 0x1000_0000
  const TAR_BLOCK: nat := 512

  datatype Entry = Entry(name: string, mode: nat, data: Bytes)

  datatype TypeFlag = RegularFile | OtherType

  datatype TarEntry = TarEntry(name: string, flag: TypeFlag, mode: int, data: Bytes)

  /** The entries that a tar reader delivers, and whether it then ends properly. */
  datatype TarStream = TarStream(items: seq<TarEntry>, intact: bool)

  datatype Manifest = Manifest(version: int, createdAt: string, files: map<string, string>)

  datatype Codec = Codec(
    hash: Bytes -> string,
    encode: Manifest -> Bytes,
    decode: Bytes -> Option<Manifest>,
    recode: string -> string,
    headerSize: TarEntry -> nat)

  /**
   * A digest text is never empty. JSON gives a manifest back with each key as JSON text can carry it, which replaces
   * octets that are not valid UTF-8; keys it can carry come back unchanged.
   */
  ghost predicate Lawful(c: Codec) {
    && (forall d :: c.hash(d) != "")
    && (forall k :: c.recode(c.recode(k)) == c.recode(k))
    && (forall m: Manifest ::
          && c.decode(c.encode(m)).Some?
          && c.decode(c.encode(m)).value.version == m.version
          && (c.decode(c.encode(m)).value.files.Keys == set k | k in m.files :: c.recode(k))
          && ((forall k | k in m.files :: c.recode(k) == k) ==> c.decode(c.encode(m)).value.files == m.files))
  }

  ghost function NameOf(): TarEntry -> string {
    (x: TarEntry) => x.name
  }

  // ---- Writing ----

  function FileHashes(c: Codec, entries: seq<Entry>): map<string, string> {
    if entries == [] then map[]
    else
      var n := |entries| - 1;
      FileHashes(c, entries[..n])[entries[n].name := c.hash(entries[n].data)]
  }

  function ManifestEntry(c: Codec, entries: seq<Entry>, createdAt: string): Entry {
    Entry(MANIFEST, 0x180, c.encode(Manifest(1, createdAt, FileHashes(c, entries))))
  }

  function TarItem(e: Entry): TarEntry {
    TarEntry(e.name, RegularFile, e.mode % 0x200, e.data)
  }

  function TarItems(entries: seq<Entry>): seq<TarEntry> {
    seq(|entries|, i requires 0 <= i < |entries| => TarItem(entries[i]))
  }

  function EntryKey(): Entry -> string {
    (e: Entry) => e.name
  }

  /** The archive of some entries: all of them and their manifest, by name. */
  function Packed(c: Codec, entries: seq<Entry>, createdAt: string): seq<TarEntry> {
    TarItems(Sort(EntryKey(), entries + [ManifestEntry(c, entries, createdAt)]))
  }

  function Padded(n: nat): nat {
    (n + TAR_BLOCK - 1) / TAR_BLOCK * TAR_BLOCK
  }

  /** The contents of an entry fill whole blocks of 512 octets, as few as hold them. */
  lemma PaddedMeaning(n: nat)
    ensures Padded(n) % 512 == 0 && n <= Padded(n) < n + 512
  {
  }

  /** Octets of complete entries: headers and padded contents. */
  function TarSize(c: Codec, items: seq<TarEntry>): nat {
    if items == [] then 0
    else
      var n := |items| - 1;
      TarSize(c, items[..n]) + c.headerSize(items[n]) + Padded(|items[n].data|)
  }

  /** Octets in the writer's buffer after the last of these entries was written, before its padding. */
  function Buffered(c: Codec, items: seq<TarEntry>): nat {
    if items == [] then 0
    else
      var n := |items| - 1;
      TarSize(c, items[..n]) + c.headerSize(items[n]) + |items[n].data|
  }

  lemma BufferedGrows(c: Codec, items: seq<TarEntry>, n: nat)
    requires n <= |items|
    ensures Buffered(c, items[..n]) <= TarSize(c, items[..n])
    ensures n < |items| ==> Buffered(c, items[..n]) <= Buffered(c, items[..n + 1])
  {
    if n < |items| {
      assert items[..n + 1][..n] == items[..n];
    }
    if n > 0 {
      assert items[..n][..n - 1] == items[..n - 1];
    }
  }

  lemma {:induction false} BufferedMonotone(c: Codec, items: seq<TarEntry>, n: nat)
    requires n <= |items|
    ensures Buffered(c, items[..n]) <= Buffered(c, items)
    decreases |items| - n
  {
    if n < |items| {
      BufferedGrows(c, items, n);
      BufferedMonotone(c, items, n + 1);
    } else {
      assert items[..n] == items;
    }
  }

  lemma {:induction false} FitsEachEntry(c: Codec, items: seq<TarEntry>, i: nat)
    requires i < |items|
    ensures |items[i].data| <= Buffered(c, items)
  {
    BufferedMonotone(c, items, i + 1);
    assert items[..i + 1][i] == items[i];
  }

  method HashFiles(c: Codec, entries: seq<Entry>) returns (files: map<string, string>)
    ensures files == FileHashes(c, entries)
  {
    files := map[];
    for i := 0 to |entries|
      invariant files == FileHashes(c, entries[..i])
    {
      assert entries[..i + 1][..i] == entries[..i];
      files := files[entries[i].name := c.hash(entries[i].data)];
    }
    assert entries[..|entries|] == entries;
  }

  lemma SizeStep(c: Codec, items: seq<TarEntry>, i: nat)
    requires i < |items|
    ensures TarSize(c, items[..i + 1]) == TarSize(c, items[..i]) + c.headerSize(items[i]) + Padded(|items[i].data|)
    ensures Buffered(c, items[..i + 1]) == TarSize(c, items[..i]) + c.headerSize(items[i]) + |items[i].data|
  {
    assert items[..i + 1][..i] == items[..i];
  }

  /** Writes entry after entry, refused once the buffer exceeds the limit. */
  method WriteEntries(c: Codec, entries: seq<Entry>) returns (r: Option<seq<TarEntry>>)
    ensures r.Some? <==> Buffered(c, TarItems(entries)) <= 0x1000_0000
    ensures r.Some? ==> r.value == TarItems(entries)
  {
    ghost var items := TarItems(entries);
    var written: seq<TarEntry> := [];
    var size := 0;
    for i := 0 to |entries|
      invariant written == items[..i] && size == TarSize(c, items[..i])
      invariant Buffered(c, items[..i]) <= MAX_BACKUP
    {
      var item := TarItem(entries[i]);
      assert items[..i + 1] == items[..i] + [item];
      SizeStep(c, items, i);
      written := written + [item];
      if size + c.headerSize(item) + |item.data| > MAX_BACKUP {
        BufferedMonotone(c, items, i + 1);
        return None;
      }
      size := size + c.headerSize(item) + Padded(|item.data|);
    }
    assert items[..|entries|] == items;
    r := Some(written);
  }

  /** Writes the archive of some entries with their manifest; the end marker and the last padding are not counted. */
  method MakeArchive(c: Codec, entries: seq<Entry>, createdAt: string) returns (r: Option<seq<TarEntry>>)
    ensures r.Some? <==> Buffered(c, Packed(c, entries, createdAt)) <= 0x1000_0000
    ensures r.Some? ==> r.value == Packed(c, entries, createdAt)
  {
    var files := HashFiles(c, entries);
    var manifest := Entry(MANIFEST, 0x180, c.encode(Manifest(1, createdAt, files)));
    r := WriteEntries(c, Sort(EntryKey(), entries + [manifest]));
  }

  // ---- Reading ----

  predicate Admissible(x: TarEntry) {
    x.flag == RegularFile && SafeArchivePath(x.name) && |x.data| <= 0x1000_0000
  }

  ghost predicate AllAdmissible(items: seq<TarEntry>) {
    forall x | x in items :: Admissible(x)
  }

  function EntryFrom(x: TarEntry): Entry {
    Entry(x.name, x.mode % 0x200, x.data)
  }

  function EntriesFrom(items: seq<TarEntry>): seq<Entry> {
    if items == [] then []
    else
      var n := |items| - 1;
      if items[n].name == MANIFEST then EntriesFrom(items[..n]) else EntriesFrom(items[..n]) + [EntryFrom(items[n])]
  }

  function NamesOf(items: seq<TarEntry>): set<string> {
    set x | x in items :: x.name
  }

  /** x is a manifest whose files are exactly the other names, each with the digest of its contents. */
  ghost predicate Matches(c: Codec, items: seq<TarEntry>, x: TarEntry) {
    && x.name == MANIFEST && c.decode(x.data).Some? && c.decode(x.data).value.version == 1
    && var files := c.decode(x.data).value.files;
       && files.Keys == NamesOf(items) - {MANIFEST}
       && forall y | y in items && y.name != MANIFEST :: files[y.name] == c.hash(y.data)
  }

  /** The archives that may be restored. */
  ghost predicate Accepts(c: Codec, tar: TarStream) {
    && tar.intact
    && AllAdmissible(tar.items)
    && DistinctKeys(NameOf(), tar.items)
    && exists x :: x in tar.items && Matches(c, tar.items, x)
  }

  ghost function Contents(c: Codec, tar: TarStream): Option<seq<Entry>> {
    if Accepts(c, tar) then Some(Sort(EntryKey(), EntriesFrom(tar.items))) else None
  }

  ghost function EntrySet(items: seq<TarEntry>): set<Entry> {
    set x | x in items && x.name != MANIFEST :: EntryFrom(x)
  }

  lemma EntrySetStep(before: seq<TarEntry>, x: TarEntry)
    ensures EntrySet(before + [x]) == EntrySet(before) + if x.name == MANIFEST then {} else {EntryFrom(x)}
  {
    assert forall y :: y in before + [x] <==> y in before || y == x;
  }

  lemma {:induction false} EntriesFromMembers(items: seq<TarEntry>)
    ensures forall e :: e in EntriesFrom(items) <==> e in EntrySet(items)
  {
    if items != [] {
      var n := |items| - 1;
      EntriesFromMembers(items[..n]);
      EntrySetStep(items[..n], items[n]);
      assert items == items[..n] + [items[n]];
    }
  }

  lemma {:induction false} EntriesDistinct(items: seq<TarEntry>)
    requires DistinctKeys(NameOf(), items)
    ensures DistinctKeys(EntryKey(), EntriesFrom(items))
  {
    if items != [] {
      var n := |items| - 1;
      var before := EntriesFrom(items[..n]);
      DistinctPrefix(NameOf(), items, n);
      EntriesDistinct(items[..n]);
      EntriesFromMembers(items[..n]);
      forall i | 0 <= i < |before|
        ensures EntryKey()(before[i]) != items[n].name
      {
        assert before[i] in EntrySet(items[..n]);
      }
    }
  }

  lemma MatchesIgnoresOrder(c: Codec, a: seq<TarEntry>, b: seq<TarEntry>, x: TarEntry)
    requires (forall y :: y in a <==> y in b) && Matches(c, a, x)
    ensures Matches(c, b, x)
  {
    assert NamesOf(a) == NamesOf(b);
  }

  lemma AcceptingIgnoresOrder(c: Codec, a: TarStream, b: TarStream)
    requires multiset(a.items) == multiset(b.items) && a.intact == b.intact && Accepts(c, a)
    ensures Accepts(c, b)
  {
    SameMembers(a.items, b.items);
    DistinctPermuted(NameOf(), a.items, b.items);
    var x :| x in a.items && Matches(c, a.items, x);
    MatchesIgnoresOrder(c, a.items, b.items, x);
  }

  /** Any reordering of an archive reads the same. */
  lemma ReadingIgnoresOrder(c: Codec, a: TarStream, b: TarStream)
    requires multiset(a.items) == multiset(b.items) && a.intact == b.intact
    ensures Contents(c, a) == Contents(c, b)
  {
    SameMembers(a.items, b.items);
    if Accepts(c, a) {
      AcceptingIgnoresOrder(c, a, b);
    } else if Accepts(c, b) {
      AcceptingIgnoresOrder(c, b, a);
    }
    if Accepts(c, a) {
      EntriesFromMembers(a.items);
      EntriesFromMembers(b.items);
      EntriesDistinct(a.items);
      EntriesDistinct(b.items);
      assert EntrySet(a.items) == EntrySet(b.items);
      SameMembersSameSort(EntryKey(), EntriesFrom(a.items), EntriesFrom(b.items));
    }
  }

  /** What the scanning loop knows after some entries. */
  ghost predicate Scanned(c: Codec, items: seq<TarEntry>, files: map<string, Entry>, expected: Option<Manifest>) {
    && DistinctKeys(NameOf(), items)
    && files.Keys == NamesOf(items) - {MANIFEST}
    && (forall y | y in items && y.name != MANIFEST :: files[y.name] == EntryFrom(y))
    && (expected.Some? <==> MANIFEST in NamesOf(items))
    && (expected.Some? ==> expected.value.version == 1)
    && (forall y | y in items && y.name == MANIFEST :: c.decode(y.data) == expected)
  }

  lemma NamesExtend(items: seq<TarEntry>, x: TarEntry)
    ensures NamesOf(items + [x]) == NamesOf(items) + {x.name}
  {
    assert forall y :: y in items + [x] <==> y in items || y == x;
  }

  lemma ScannedStep(c: Codec, items: seq<TarEntry>, files: map<string, Entry>, expected: Option<Manifest>, x: TarEntry)
    requires Scanned(c, items, files, expected)
    requires x.name !in files && !(x.name == MANIFEST && expected.Some?)
    ensures x.name != MANIFEST ==> Scanned(c, items + [x], files[x.name := EntryFrom(x)], expected)
    ensures x.name == MANIFEST && c.decode(x.data).Some? && c.decode(x.data).value.version == 1 ==>
              Scanned(c, items + [x], files, c.decode(x.data))
  {
    assert x.name !in NamesOf(items);
    forall y | y in items
      ensures y.name != x.name
    {
      assert y.name in NamesOf(items);
    }
    DistinctAppend(NameOf(), items, x);
    NamesExtend(items, x);
    assert forall y :: y in items + [x] <==> y in items || y == x;
  }

  /** Two entries of one name are never accepted. */
  lemma RepeatedNameRejected(items: seq<TarEntry>, i: nat)
    requires i < |items| && items[i].name in NamesOf(items[..i])
    ensures !DistinctKeys(NameOf(), items)
  {
    var y :| y in items[..i] && y.name == items[i].name;
    var j :| 0 <= j < i && items[..i][j] == y;
    assert NameOf()(items[j]) == NameOf()(items[i]);
  }

  /** One entry of the scan: refused only when no manifest could justify the archive. */
  method ScanEntry(c: Codec, tar: TarStream, i: nat, files: map<string, Entry>, expected: Option<Manifest>)
    returns (ok: bool, files': map<string, Entry>, expected': Option<Manifest>)
    requires i < |tar.items| && Scanned(c, tar.items[..i], files, expected)
    ensures ok ==> Scanned(c, tar.items[..i] + [tar.items[i]], files', expected') && Admissible(tar.items[i])
    ensures !ok ==> !Accepts(c, tar)
  {
    var x := tar.items[i];
    files', expected' := files, expected;
    if x.flag != RegularFile || !SafeArchivePath(x.name) || |x.data| > MAX_BACKUP {
      assert x in tar.items;
      return false, files, expected;
    }
    if x.name in files || (x.name == MANIFEST && expected.Some?) {
      RepeatedNameRejected(tar.items, i);
      return false, files, expected;
    }
    ScannedStep(c, tar.items[..i], files, expected, x);
    if x.name == MANIFEST {
      var decoded := c.decode(x.data);
      if decoded.None? || decoded.value.version != 1 {
        InvalidManifestRejected(c, tar, i);
        return false, files, expected;
      }
      return true, files, decoded;
    }
    return true, files[x.name := EntryFrom(x)], expected;
  }

  /** The scan fails only on archives that no manifest could justify. */
  method ScanArchive(c: Codec, tar: TarStream) returns (ok: bool, files: map<string, Entry>, expected: Option<Manifest>)
    ensures ok ==> tar.intact && AllAdmissible(tar.items) && Scanned(c, tar.items, files, expected)
    ensures !ok ==> !Accepts(c, tar)
  {
    ok, files, expected := true, map[], None;
    assert tar.items[..0] == [];
    for i := 0 to |tar.items|
      invariant Scanned(c, tar.items[..i], files, expected)
      invariant AllAdmissible(tar.items[..i])
    {
      assert tar.items[..i + 1] == tar.items[..i] + [tar.items[i]];
      ok, files, expected := ScanEntry(c, tar, i, files, expected);
      if !ok {
        return;
      }
      AdmissibleExtend(tar.items[..i], tar.items[i]);
    }
    assert tar.items[..|tar.items|] == tar.items;
    ok := tar.intact;
  }

  lemma AdmissibleExtend(items: seq<TarEntry>, x: TarEntry)
    requires AllAdmissible(items) && Admissible(x)
    ensures AllAdmissible(items + [x])
  {
  }

  lemma InvalidManifestRejected(c: Codec, tar: TarStream, i: nat)
    requires i < |tar.items| && tar.items[i].name == MANIFEST
    requires c.decode(tar.items[i].data).None? || c.decode(tar.items[i].data).value.version != 1
    ensures !Accepts(c, tar)
  {
    forall x | x in tar.items && Matches(c, tar.items, x)
      ensures !DistinctKeys(NameOf(), tar.items)
    {
      var j :| 0 <= j < |tar.items| && tar.items[j] == x;
      assert NameOf()(tar.items[i]) == NameOf()(tar.items[j]);
      assert i != j;
    }
  }

  function DigestOf(files: map<string, string>, name: string): string {
    if name in files then files[name] else ""
  }

  lemma EqualByInclusion<T>(a: set<T>, b: set<T>)
    requires a <= b && |a| == |b|
    ensures a == b
  {
    assert |b - a| == |b| - |a|;
  }

  /** Equal counts and a one-way lookup of each file make the names agree with the manifest. */
  lemma CountAndLookupMatch(c: Codec, items: seq<TarEntry>, files: map<string, Entry>, listed: map<string, string>)
    requires Lawful(c) && files.Keys == NamesOf(items) - {MANIFEST}
    requires forall y | y in items && y.name != MANIFEST :: files[y.name] == EntryFrom(y)
    requires |files| == |listed| && forall name | name in files :: DigestOf(listed, name) == c.hash(files[name].data)
    ensures listed.Keys == NamesOf(items) - {MANIFEST}
    ensures forall y | y in items && y.name != MANIFEST :: listed[y.name] == c.hash(y.data)
  {
    forall name | name in files
      ensures name in listed
    {
      assert c.hash(files[name].data) != "";
    }
    assert |files.Keys| == |files| && |listed.Keys| == |listed|;
    EqualByInclusion(files.Keys, listed.Keys);
    forall y | y in items && y.name != MANIFEST
      ensures listed[y.name] == c.hash(y.data)
    {
      assert y.name in NamesOf(items);
      assert files[y.name].data == y.data;
    }
  }

  lemma MatchImpliesCountAndLookup(c: Codec, items: seq<TarEntry>, files: map<string, Entry>, expected: Option<Manifest>, x: TarEntry)
    requires Scanned(c, items, files, expected) && x in items && Matches(c, items, x)
    ensures expected.Some? && expected == c.decode(x.data) && |files| == |expected.value.files|
    ensures forall name | name in files :: DigestOf(expected.value.files, name) == c.hash(files[name].data)
  {
    assert x.name in NamesOf(items);
    var listed := expected.value.files;
    assert files.Keys == listed.Keys;
    assert |files.Keys| == |files| && |listed.Keys| == |listed|;
    forall name | name in files
      ensures DigestOf(listed, name) == c.hash(files[name].data)
    {
      var y :| y in items && y.name == name;
    }
  }

  /** The count of names and the lookup of each file decide the match with the manifest. */
  lemma CountAndLookupDecide(c: Codec, tar: TarStream, files: map<string, Entry>, expected: Option<Manifest>)
    requires Lawful(c) && tar.intact && AllAdmissible(tar.items) && Scanned(c, tar.items, files, expected)
    ensures Accepts(c, tar) <==>
            expected.Some? && |files| == |expected.value.files|
            && forall name | name in files :: DigestOf(expected.value.files, name) == c.hash(files[name].data)
  {
    if x :| x in tar.items && Matches(c, tar.items, x) {
      MatchImpliesCountAndLookup(c, tar.items, files, expected, x);
    }
    if expected.Some? && |files| == |expected.value.files|
       && forall name | name in files :: DigestOf(expected.value.files, name) == c.hash(files[name].data) {
      CountAndLookupMatch(c, tar.items, files, expected.value.files);
      var m :| m in tar.items && m.name == MANIFEST;
      assert Matches(c, tar.items, m);
    }
  }

  lemma FilesAreEntries(c: Codec, items: seq<TarEntry>, files: map<string, Entry>, expected: Option<Manifest>, entries: seq<Entry>)
    requires Scanned(c, items, files, expected) && DistinctKeys(EntryKey(), entries)
    requires forall e :: e in entries <==> e.name in files && files[e.name] == e
    ensures Sort(EntryKey(), entries) == Sort(EntryKey(), EntriesFrom(items))
  {
    EntriesFromMembers(items);
    EntriesDistinct(items);
    forall e
      ensures e in entries <==> e in EntrySet(items)
    {
      if e in EntrySet(items) {
        var x :| x in items && x.name != MANIFEST && e == EntryFrom(x);
        assert files[x.name] == EntryFrom(x);
      }
      if e in entries {
        assert e.name in NamesOf(items);
        var y :| y in items && y.name == e.name;
        assert files[y.name] == EntryFrom(y);
      }
    }
    SameMembersSameSort(EntryKey(), entries, EntriesFrom(items));
  }

  /** Compares every file with its digest, in the order of map iteration, and collects the files. */
  method CheckFiles(c: Codec, files: map<string, Entry>, listed: map<string, string>) returns (r: Option<seq<Entry>>)
    requires forall name | name in files :: files[name].name == name
    ensures r.Some? <==> forall name | name in files :: DigestOf(listed, name) == c.hash(files[name].data)
    ensures r.Some? ==> DistinctKeys(EntryKey(), r.value) && forall e :: e in r.value <==> e.name in files && files[e.name] == e
  {
    var entries: seq<Entry> := [];
    var rest := files.Keys;
    ghost var key := EntryKey();
    while rest != {}
      invariant rest <= files.Keys
      invariant DistinctKeys(key, entries)
      invariant forall e :: e in entries <==> e.name in files && e.name !in rest && files[e.name] == e
      invariant forall name | name in files && name !in rest :: DigestOf(listed, name) == c.hash(files[name].data)
      decreases |rest|
    {
      var name :| name in rest;
      var file := files[name];
      if DigestOf(listed, name) != c.hash(file.data) {
        return None;
      }
      forall i | 0 <= i < |entries|
        ensures key(entries[i]) != key(file)
      {
        assert entries[i] in entries;
      }
      entries := entries + [file];
      rest := rest - {name};
    }
    r := Some(entries);
  }

  lemma ScannedNames(c: Codec, items: seq<TarEntry>, files: map<string, Entry>, expected: Option<Manifest>)
    requires Scanned(c, items, files, expected)
    ensures forall name | name in files :: files[name].name == name
  {
    forall name | name in files
      ensures files[name].name == name
    {
      assert name in NamesOf(items);
      var y :| y in items && y.name == name;
    }
  }

  /** x is a manifest of version 1 with the digest of every other file of the archive, and of nothing else. */
  ghost predicate Vouches(c: Codec, x: TarEntry, items: seq<TarEntry>) {
    && x.name == "manifest.json" && c.decode(x.data).Some? && c.decode(x.data).value.version == 1
    && var files := c.decode(x.data).value.files;
       && (forall name :: name in files <==> exists y :: y in items && y.name == name && name != "manifest.json")
       && forall y | y in items && y.name != "manifest.json" :: files[y.name] == c.hash(y.data)
  }

  lemma MatchVouches(c: Codec, items: seq<TarEntry>, x: TarEntry)
    requires Matches(c, items, x)
    ensures Vouches(c, x, items)
  {
    var files := c.decode(x.data).value.files;
    forall name
      ensures name in files <==> exists y :: y in items && y.name == name && name != "manifest.json"
    {
      assert name in files <==> name in NamesOf(items) && name != MANIFEST;
    }
  }

  lemma EntryIsFile(items: seq<TarEntry>, e: Entry)
    requires e in EntriesFrom(items)
    ensures exists x :: x in items && e.name == x.name && e.data == x.data
  {
    EntriesFromMembers(items);
  }

  lemma WhatIsRead(c: Codec, tar: TarStream)
    requires Contents(c, tar).Some?
    ensures exists x :: x in tar.items && Vouches(c, x, tar.items)
    ensures forall e | e in Contents(c, tar).value :: exists x :: x in tar.items && e.name == x.name && e.data == x.data
  {
    var x :| x in tar.items && Matches(c, tar.items, x);
    MatchVouches(c, tar.items, x);
    SameMembers(Sort(EntryKey(), EntriesFrom(tar.items)), EntriesFrom(tar.items));
    forall e | e in Contents(c, tar).value
      ensures exists x :: x in tar.items && e.name == x.name && e.data == x.data
    {
      EntryIsFile(tar.items, e);
    }
  }

  /** Reads an archive: accepted exactly when Accepts holds, with the sorted contents as result. */
  method ReadArchive(c: Codec, tar: TarStream) returns (r: Option<seq<Entry>>)
    requires Lawful(c)
    ensures r == Contents(c, tar)
    ensures r.Some? ==> forall x | x in tar.items :: x.flag == RegularFile && SafeArchivePath(x.name) && |x.data| <= 0x1000_0000
    ensures r.Some? ==> exists x :: x in tar.items && Vouches(c, x, tar.items)
    ensures r.Some? ==> forall e | e in r.value :: exists x :: x in tar.items && e.name == x.name && e.data == x.data
  {
    var ok, files, expected := ScanArchive(c, tar);
    if !ok {
      return None;
    }
    CountAndLookupDecide(c, tar, files, expected);
    if expected.None? || |files| != |expected.value.files| {
      return None;
    }
    ScannedNames(c, tar.items, files, expected);
    var checked := CheckFiles(c, files, expected.value.files);
    if checked.None? {
      return None;
    }
    FilesAreEntries(c, tar.items, files, expected, checked.value);
    r := Some(Sort(EntryKey(), checked.value));
    WhatIsRead(c, tar);
  }

  // ---- Round trip ----

  /** Entries as a collection delivers them: distinct safe names other than the manifest's, permission bits only. */
  ghost predicate Collected(entries: seq<Entry>) {
    && DistinctKeys(EntryKey(), entries)
    && forall e | e in entries :: SafeArchivePath(e.name) && e.name != MANIFEST && e.mode < 0x200
  }

  lemma {:induction false} FileHashesOf(c: Codec, entries: seq<Entry>)
    requires DistinctKeys(EntryKey(), entries)
    ensures FileHashes(c, entries).Keys == set e | e in entries :: e.name
    ensures forall e | e in entries :: FileHashes(c, entries)[e.name] == c.hash(e.data)
  {
    if entries != [] {
      var n := |entries| - 1;
      var before := entries[..n];
      assert entries == before + [entries[n]];
      DistinctPrefix(EntryKey(), entries, n);
      FileHashesOf(c, before);
      assert forall e | e in before :: EntryKey()(e) != EntryKey()(entries[n]);
    }
  }

  ghost function ItemSet(entries: seq<Entry>): set<TarEntry> {
    set e | e in entries :: TarItem(e)
  }

  lemma TarItemsMembers(entries: seq<Entry>)
    ensures forall x :: x in TarItems(entries) <==> x in ItemSet(entries)
  {
    forall x | x in TarItems(entries)
      ensures x in ItemSet(entries)
    {
      var i :| 0 <= i < |entries| && TarItems(entries)[i] == x;
      assert entries[i] in entries;
    }
    forall e | e in entries
      ensures TarItem(e) in TarItems(entries)
    {
      var i :| 0 <= i < |entries| && entries[i] == e;
      assert TarItems(entries)[i] == TarItem(e);
    }
  }

  lemma TarItemsDistinct(entries: seq<Entry>)
    requires DistinctKeys(EntryKey(), entries)
    ensures DistinctKeys(NameOf(), TarItems(entries))
  {
    forall i, j | 0 <= i < j < |entries|
      ensures NameOf()(TarItems(entries)[i]) != NameOf()(TarItems(entries)[j])
    {
      assert EntryKey()(entries[i]) != EntryKey()(entries[j]);
    }
  }

  lemma PackedMembers(c: Codec, entries: seq<Entry>, createdAt: string)
    requires Collected(entries)
    ensures DistinctKeys(NameOf(), Packed(c, entries, createdAt))
    ensures forall x :: x in Packed(c, entries, createdAt)
                        <==> x == TarItem(ManifestEntry(c, entries, createdAt)) || x in ItemSet(entries)
  {
    var manifest := ManifestEntry(c, entries, createdAt);
    var all := entries + [manifest];
    var sorted := Sort(EntryKey(), all);
    DistinctAppend(EntryKey(), entries, manifest);
    DistinctPermuted(EntryKey(), all, sorted);
    TarItemsDistinct(sorted);
    TarItemsMembers(sorted);
    SameMembers(sorted, all);
    assert forall e :: e in all <==> e in entries || e == manifest;
    assert ItemSet(sorted) == ItemSet(entries) + {TarItem(manifest)};
  }

  ghost predicate Recodable(c: Codec, entries: seq<Entry>) {
    forall e | e in entries :: c.recode(e.name) == e.name
  }

  ghost function NamesIn(entries: seq<Entry>): set<string> {
    set e | e in entries :: e.name
  }

  lemma PackedNames(c: Codec, entries: seq<Entry>, createdAt: string)
    requires Collected(entries)
    ensures NamesOf(Packed(c, entries, createdAt)) - {MANIFEST} == NamesIn(entries)
    ensures TarItem(ManifestEntry(c, entries, createdAt)) in Packed(c, entries, createdAt)
    ensures forall x | x in Packed(c, entries, createdAt) && x.name == MANIFEST :: x == TarItem(ManifestEntry(c, entries, createdAt))
  {
    PackedMembers(c, entries, createdAt);
    var packed := Packed(c, entries, createdAt);
    forall name | name in NamesIn(entries)
      ensures name in NamesOf(packed) - {MANIFEST}
    {
      var e :| e in entries && e.name == name;
      assert TarItem(e) in packed;
    }
  }

  lemma PackedAdmissible(c: Codec, entries: seq<Entry>, createdAt: string)
    requires Collected(entries) && Buffered(c, Packed(c, entries, createdAt)) <= MAX_BACKUP
    ensures AllAdmissible(Packed(c, entries, createdAt))
  {
    PackedMembers(c, entries, createdAt);
    SafePathMeaning(MANIFEST);
    var packed := Packed(c, entries, createdAt);
    forall x | x in packed
      ensures Admissible(x)
    {
      var i :| 0 <= i < |packed| && packed[i] == x;
      FitsEachEntry(c, packed, i);
    }
  }

  lemma ItemReadsBack(e: Entry)
    requires e.mode < 0x200
    ensures EntryFrom(TarItem(e)) == e
  {
  }

  lemma ItemOf(entries: seq<Entry>, x: TarEntry)
    requires x in ItemSet(entries) && forall e | e in entries :: e.mode < 0x200
    ensures EntryFrom(x) in entries && EntryFrom(x).name == x.name
  {
    var e :| e in entries && x == TarItem(e);
    ItemReadsBack(e);
  }

  lemma EntriesReadBack(items: seq<TarEntry>, manifest: TarEntry, entries: seq<Entry>)
    requires manifest.name == MANIFEST && forall e | e in entries :: e.name != MANIFEST && e.mode < 0x200
    requires forall x :: x in items <==> x == manifest || x in ItemSet(entries)
    ensures forall e :: e in EntrySet(items) <==> e in entries
  {
    forall x | x in items && x.name != MANIFEST
      ensures EntryFrom(x) in entries
    {
      ItemOf(entries, x);
    }
    forall e | e in entries
      ensures e in EntrySet(items)
    {
      ItemReadsBack(e);
      var x := TarItem(e);
      assert x in items && x.name != MANIFEST && EntryFrom(x) == e;
    }
  }

  lemma PackedReadsBack(c: Codec, entries: seq<Entry>, createdAt: string)
    requires Collected(entries)
    ensures Sort(EntryKey(), EntriesFrom(Packed(c, entries, createdAt))) == Sort(EntryKey(), entries)
  {
    var packed := Packed(c, entries, createdAt);
    PackedMembers(c, entries, createdAt);
    EntriesFromMembers(packed);
    EntriesDistinct(packed);
    EntriesReadBack(packed, TarItem(ManifestEntry(c, entries, createdAt)), entries);
    SameMembersSameSort(EntryKey(), EntriesFrom(packed), entries);
  }

  lemma ManifestMatches(c: Codec, entries: seq<Entry>, createdAt: string)
    requires Lawful(c) && Collected(entries) && Recodable(c, entries)
    ensures Matches(c, Packed(c, entries, createdAt), TarItem(ManifestEntry(c, entries, createdAt)))
  {
    var packed := Packed(c, entries, createdAt);
    var manifest := Manifest(1, createdAt, FileHashes(c, entries));
    FileHashesOf(c, entries);
    PackedNames(c, entries, createdAt);
    PackedMembers(c, entries, createdAt);
    assert forall k | k in manifest.files :: c.recode(k) == k;
    assert c.decode(c.encode(manifest)).value.files == manifest.files;
    forall y | y in packed && y.name != MANIFEST
      ensures y.name in manifest.files && manifest.files[y.name] == c.hash(y.data)
    {
      var e :| e in entries && y == TarItem(e);
    }
  }

  lemma UnrecodableRejected(c: Codec, entries: seq<Entry>, createdAt: string)
    requires Lawful(c) && Collected(entries) && !Recodable(c, entries)
    ensures !Accepts(c, TarStream(Packed(c, entries, createdAt), true))
  {
    var packed := Packed(c, entries, createdAt);
    var manifest := Manifest(1, createdAt, FileHashes(c, entries));
    PackedNames(c, entries, createdAt);
    FileHashesOf(c, entries);
    var bad :| bad in entries && c.recode(bad.name) != bad.name;
    forall x | x in packed && x.name == MANIFEST
      ensures !Matches(c, packed, x)
    {
      assert x.data == c.encode(manifest);
      assert bad.name in NamesIn(entries);
      assert c.decode(x.data).value.files.Keys == set k | k in manifest.files :: c.recode(k);
      forall k | k in manifest.files
        ensures c.recode(k) != bad.name
      {
        assert c.recode(c.recode(k)) == c.recode(k);
      }
    }
  }

  /**
   * Reading back what was written gives exactly the entries by name, with the same contents and permission bits, if
   * and only if the manifest can carry every name; otherwise the archive is refused.
   */
  lemma ArchiveRoundTrip(c: Codec, entries: seq<Entry>, createdAt: string)
    requires Lawful(c) && Collected(entries) && Buffered(c, Packed(c, entries, createdAt)) <= 0x1000_0000
    ensures Contents(c, TarStream(Packed(c, entries, createdAt), true)) ==
            if Recodable(c, entries) then Some(Sort(EntryKey(), entries)) else None
  {
    if Recodable(c, entries) {
      PackedAdmissible(c, entries, createdAt);
      PackedMembers(c, entries, createdAt);
      PackedNames(c, entries, createdAt);
      ManifestMatches(c, entries, createdAt);
      PackedReadsBack(c, entries, createdAt);
    } else {
      UnrecodableRejected(c, entries, createdAt);
    }
  }
}
