/**
 * The publish and rollback transaction of a restore: staged trees replace destinations by renames, the previous trees
 * wait under a second name until every new tree is in place. Every operation may fail and a removal may stop halfway;
 * the history keeps each state the directories went through, so a statement about the history holds after a crash.
 */
module RestoreTransaction {
  import opened Basics

  datatype File = File(mode: nat, data: Bytes)

  /** The regular files below a directory by relative path; an empty map is an empty directory. */
  type Tree = map<string, File>

  type Trees = map<string, Tree>

  datatype Presence = Present | Absent | Unreadable

  /** One staged tree and its destination; setAside names the previous tree, empty if there is none. */
  datatype Publication = Publication(temp: string, destination: string, setAside: string)

  datatype RestoreError = Refused | DestinationExists | OperationFailed

  function OldPath(destination: string, stamp: string): (r: string)
    ensures r != ""
  {
    destination + ".before-restore-" + stamp
  }

  ghost predicate Holds(trees: Trees, path: string, tree: Tree) {
    path in trees && trees[path] == tree
  }

  /** What a rename of a directory leaves; a destination that exists is refused, as os.Rename refuses a directory there. */
  function Renamed(trees: Trees, source: string, destination: string): Option<Trees> {
    if source !in trees || destination in trees then None else Some((trees - {source})[destination := trees[source]])
  }

  class FileSystem {
    var trees: Trees
    ghost var history: seq<Trees>

    /** How many operations of the environment failed so far, and how many of those belonged to a rollback. */
    ghost var faults: nat
    ghost var undoFaults: nat

    /** A rollback is under way. */
    ghost var undoing: bool

    /** An operation of the environment: it succeeds, or fails and is counted. */
    method Try() returns (ok: bool)
      modifies this`faults, this`undoFaults
      ensures faults == if ok then old(faults) else old(faults) + 1
      ensures undoFaults == if ok || !undoing then old(undoFaults) else old(undoFaults) + 1
    {
      ok := Attempt();
      if !ok {
        faults := faults + 1;
        undoFaults := if undoing then undoFaults + 1 else undoFaults;
      }
    }

    method Inspect(path: string) returns (presence: Presence)
      modifies this`faults, this`undoFaults
      ensures presence == Present ==> path in trees
      ensures presence == Absent ==> path !in trees
      ensures faults == if presence == Unreadable then old(faults) + 1 else old(faults)
      ensures !undoing ==> undoFaults == old(undoFaults)
    {
      var ok := Try();
      presence := if !ok then Unreadable else if path in trees then Present else Absent;
    }

    /** Moves a directory to a name that is free. */
    method Rename(source: string, destination: string) returns (ok: bool)
      requires source != destination
      modifies this`trees, this`history, this`faults, this`undoFaults
      ensures !ok ==> trees == old(trees) && history == old(history)
      ensures ok ==> Renamed(old(trees), source, destination) == Some(trees) && history == old(history) + [trees]
      ensures !ok ==> old(faults) < faults || Renamed(old(trees), source, destination).None?
      ensures old(faults) <= faults && undoFaults - old(undoFaults) == if undoing then faults - old(faults) else 0
    {
      ok := Try();
      var after := Renamed(trees, source, destination);
      if !ok || after.None? {
        return false;
      }
      trees := after.value;
      history := history + [trees];
    }

    /** Removes a directory file by file; a failure leaves some of its files. */
    method RemoveAll(path: string) returns (ok: bool)
      modifies this`trees, this`history, this`faults, this`undoFaults
      ensures forall p | p != path :: SameAt(old(trees), trees, p)
      ensures path in trees ==> path in old(trees)
      ensures ok ==> path !in trees
      ensures old(history) <= history
      ensures forall k, p | |old(history)| <= k < |history| && p != path :: SameAt(old(trees), history[k], p)
      ensures old(faults) <= faults && undoFaults - old(undoFaults) == if undoing then faults - old(faults) else 0
      ensures !ok ==> old(faults) < faults
    {
      if path !in trees {
        ok := Try();
        return ok;
      }
      var left: set<string> := *;
      trees := trees[path := map f | f in trees[path] && f in left :: trees[path][f]];
      history := history + [trees];
      ok := Try();
      if ok {
        trees := trees - {path};
        history := history + [trees];
      }
    }
  }

  // ---- What the transaction guarantees ----

  /** A previous tree is intact at its destination or under its set-aside name. */
  ghost predicate ItemKept(original: Trees, trees: Trees, destination: string, aside: string) {
    destination in original ==>
      Holds(trees, destination, original[destination]) || Holds(trees, aside, original[destination])
  }

  ghost predicate AllKept(original: Trees, trees: Trees, items: seq<Publication>, stamps: seq<string>)
    requires |items| == |stamps|
  {
    forall i | 0 <= i < |items| :: ItemKept(original, trees, items[i].destination, OldPath(items[i].destination, stamps[i]))
  }

  /** Every staged tree is at its destination. */
  ghost predicate AllInstalled(original: Trees, trees: Trees, items: seq<Publication>) {
    forall i | 0 <= i < |items| :: items[i].temp in original && Holds(trees, items[i].destination, original[items[i].temp])
  }

  /** No two of the staged, final and set-aside paths coincide. */
  ghost predicate Separate(items: seq<Publication>, stamps: seq<string>)
    requires |items| == |stamps|
  {
    && (forall i, j | 0 <= i < |items| && 0 <= j < |items| ::
          && items[i].temp != items[j].destination
          && items[i].temp != OldPath(items[j].destination, stamps[j])
          && items[i].destination != OldPath(items[j].destination, stamps[j]))
    && (forall i, j | 0 <= i < j < |items| ::
          && items[i].temp != items[j].temp
          && items[i].destination != items[j].destination
          && OldPath(items[i].destination, stamps[i]) != OldPath(items[j].destination, stamps[j]))
  }

  ghost predicate SameAt(a: Trees, b: Trees, path: string) {
    (path in a <==> path in b) && (path in a ==> a[path] == b[path])
  }

  /** Every destination that existed is as it was. */
  ghost predicate ExistingSame(original: Trees, trees: Trees, items: seq<Publication>) {
    forall i | 0 <= i < |items| && items[i].destination in original :: SameAt(original, trees, items[i].destination)
  }

  ghost predicate NothingAside(items: seq<Publication>) {
    forall i | 0 <= i < |items| :: items[i].setAside == ""
  }

  /** Item i is installed, and its previous tree, if one was seen, is set aside. */
  ghost predicate ItemInstalled(original: Trees, trees: Trees, item: Publication, stamp: string) {
    && item.temp in original && Holds(trees, item.destination, original[item.temp])
    && (item.setAside != "" ==>
          item.setAside == OldPath(item.destination, stamp) && item.destination in original
          && Holds(trees, item.setAside, original[item.destination]))
    && (item.setAside == "" ==> item.destination !in original)
  }

  /**
   * The directories after a failed publication whose rollback calls all succeeded: every destination is as it was,
   * except that a tree which was in place when the publication stopped stays where nothing had been.
   */
  ghost predicate RolledBack(original: Trees, staged: Trees, trees: Trees, items: seq<Publication>, installed: nat) {
    && installed <= |items|
    && forall i | 0 <= i < |items| ::
         if i < installed && items[i].destination !in original
         then items[i].temp in staged && Holds(trees, items[i].destination, staged[items[i].temp])
         else SameAt(original, trees, items[i].destination)
  }

  ghost predicate DestinationsRestored(original: Trees, trees: Trees, items: seq<Publication>) {
    forall i | 0 <= i < |items| :: SameAt(original, trees, items[i].destination)
  }

  /**
   * A rollback whose calls succeed gives every previous tree its destination again. It restores all destinations exactly
   * when each one whose new tree was in place had existed before.
   */
  lemma RollbackCompleteIff(original: Trees, staged: Trees, trees: Trees, items: seq<Publication>, installed: nat)
    requires RolledBack(original, staged, trees, items, installed)
    ensures forall i | 0 <= i < |items| && items[i].destination in original ::
              Holds(trees, items[i].destination, original[items[i].destination])
    ensures DestinationsRestored(original, trees, items) <==> forall i | 0 <= i < installed :: items[i].destination in original
  {
    forall i | 0 <= i < installed && items[i].destination !in original
      ensures !SameAt(original, trees, items[i].destination)
    {
    }
  }

  /** Some directories after a rollback: the first so many new trees stay where nothing had been. */
  ghost function WithInstalled(original: Trees, staged: Trees, items: seq<Publication>, n: nat): Trees
    requires n <= |items| && forall i | 0 <= i < |items| :: items[i].temp in staged
  {
    if n == 0 then original
    else
      var before := WithInstalled(original, staged, items, n - 1);
      if items[n - 1].destination in original then before
      else before[items[n - 1].destination := staged[items[n - 1].temp]]
  }

  lemma {:induction false} WithInstalledIsRolledBack(original: Trees, staged: Trees, items: seq<Publication>, n: nat)
    requires n <= |items| && forall i | 0 <= i < |items| :: items[i].temp in staged
    requires forall i, j | 0 <= i < j < |items| :: items[i].destination != items[j].destination
    ensures RolledBack(original, staged, WithInstalled(original, staged, items, n), items, n)
  {
    if n > 0 {
      WithInstalledIsRolledBack(original, staged, items, n - 1);
    }
  }

  /**
   * Whatever the step at which the publication stops, a rollback whose calls succeed restores all destinations, if and
   * only if every destination but the last one existed before.
   */
  lemma RollbackAlwaysCompleteIff(original: Trees, staged: Trees, items: seq<Publication>)
    requires forall i | 0 <= i < |items| :: items[i].temp in staged
    requires forall i, j | 0 <= i < j < |items| :: items[i].destination != items[j].destination
    ensures (forall trees, installed: nat | installed < |items| && RolledBack(original, staged, trees, items, installed) ::
               DestinationsRestored(original, trees, items))
            <==> forall i | 0 <= i < |items| - 1 :: items[i].destination in original
  {
    forall trees, installed: nat | installed < |items| && RolledBack(original, staged, trees, items, installed)
      ensures DestinationsRestored(original, trees, items) <==> forall i | 0 <= i < installed :: items[i].destination in original
    {
      RollbackCompleteIff(original, staged, trees, items, installed);
    }
    if i :| 0 <= i < |items| - 1 && items[i].destination !in original {
      WithInstalledIsRolledBack(original, staged, items, i + 1);
      RollbackCompleteIff(original, staged, WithInstalled(original, staged, items, i + 1), items, i + 1);
    }
  }

  /**
   * Two destinations that were absent: after the first rename, when the second one fails, there is nothing to undo, and
   * the first new tree stays in place.
   */
  lemma RollbackLeavesInstalled(data: Tree, config: Tree)
    ensures var items := [Publication("t", "d", ""), Publication("u", "c", "")];
            var original: Trees := map["t" := data, "u" := config];
            var installed := Renamed(original, items[0].temp, items[0].destination);
            && installed.Some? && (forall i | 0 <= i < 2 :: items[i].setAside == "")
            && RolledBack(original, original, installed.value, items, 1)
            && !DestinationsRestored(original, installed.value, items)
  {
    var items := [Publication("t", "d", ""), Publication("u", "c", "")];
    var original: Trees := map["t" := data, "u" := config];
    assert "d"[0] != "t"[0] && "d"[0] != "u"[0] && "c"[0] != "u"[0] && "c"[0] != "t"[0] && "c"[0] != "d"[0] && "t"[0] != "u"[0];
    var trees: Trees := map["d" := data, "u" := config];
    assert (original - {"t"})["d" := data] == trees;
    assert RolledBack(original, original, trees, items, 1);
    RollbackCompleteIff(original, original, trees, items, 1);
    assert items[0].destination !in original;
  }

  // ---- publish and rollback ----

  ghost predicate HistoryKept(original: Trees, history: seq<Trees>, from: nat, items: seq<Publication>, stamps: seq<string>)
    requires |items| == |stamps|
  {
    forall k | from <= k < |history| :: AllKept(original, history[k], items, stamps)
  }

  /** The array of the code and the ghost record agree; the code clears the name of an installed staged tree. */
  ghost predicate Tracks(items: seq<Publication>, record: seq<Publication>) {
    && |items| == |record|
    && forall i | 0 <= i < |items| ::
         items[i].destination == record[i].destination && items[i].setAside == record[i].setAside
  }

  ghost predicate Restored(original: Trees, trees: Trees, path: string) {
    path in original && Holds(trees, path, original[path])
  }

  ghost predicate SetAside(original: Trees, trees: Trees, item: Publication, stamp: string) {
    && item.setAside == OldPath(item.destination, stamp) && item.destination in original
    && Holds(trees, item.setAside, original[item.destination])
  }

  ghost predicate NotOf(path: string, items: seq<Publication>, stamps: seq<string>, i: nat)
    requires i < |items| == |stamps|
  {
    path != items[i].destination && path != OldPath(items[i].destination, stamps[i])
  }

  /** A change at paths of item i only keeps the other items. */
  lemma KeptElsewhere(original: Trees, before: Trees, after: Trees, items: seq<Publication>, stamps: seq<string>, i: nat)
    requires |items| == |stamps| && i < |items| && Separate(items, stamps) && AllKept(original, before, items, stamps)
    requires forall p | NotOf(p, items, stamps, i) :: SameAt(before, after, p)
    requires ItemKept(original, after, items[i].destination, OldPath(items[i].destination, stamps[i]))
    ensures AllKept(original, after, items, stamps)
  {
    forall j | 0 <= j < |items|
      ensures ItemKept(original, after, items[j].destination, OldPath(items[j].destination, stamps[j]))
    {
      if j != i {
        assert ItemKept(original, before, items[j].destination, OldPath(items[j].destination, stamps[j]));
        assert NotOf(items[j].destination, items, stamps, i);
        assert NotOf(OldPath(items[j].destination, stamps[j]), items, stamps, i);
        assert SameAt(before, after, items[j].destination);
        assert SameAt(before, after, OldPath(items[j].destination, stamps[j]));
      }
    }
  }

  /** Undoes one item: removes what is at the destination and moves the set-aside tree back, ignoring both results. */
  method Undo(fs: FileSystem, ghost original: Trees, ghost record: seq<Publication>, ghost stamps: seq<string>, i: nat,
              destination: string, setAside: string)
    requires i < |record| == |stamps| && Separate(record, stamps) && AllKept(original, fs.trees, record, stamps)
    requires destination == record[i].destination && setAside == record[i].setAside
    requires SetAside(original, fs.trees, record[i], stamps[i])
    requires fs.undoing
    modifies fs`trees, fs`history, fs`faults, fs`undoFaults
    ensures old(fs.history) <= fs.history && HistoryKept(original, fs.history, |old(fs.history)|, record, stamps)
    ensures AllKept(original, fs.trees, record, stamps)
    ensures fs.undoFaults == old(fs.undoFaults) ==> Restored(original, fs.trees, destination)
    ensures forall p | NotOf(p, record, stamps, i) :: SameAt(old(fs.trees), fs.trees, p)
    ensures old(fs.faults) <= fs.faults && old(fs.undoFaults) <= fs.undoFaults
  {
    ghost var before := fs.trees;
    ghost var from := |fs.history|;
    assert record[i].destination != OldPath(record[i].destination, stamps[i]);
    var removed := fs.RemoveAll(destination);
    forall k | from <= k < |fs.history|
      ensures AllKept(original, fs.history[k], record, stamps)
    {
      assert SameAt(before, fs.history[k], setAside);
      KeptElsewhere(original, before, fs.history[k], record, stamps, i);
    }
    assert SameAt(before, fs.trees, setAside);
    KeptElsewhere(original, before, fs.trees, record, stamps, i);
    ghost var middle := fs.trees;
    ghost var middleHistory := fs.history;
    var moved := fs.Rename(setAside, destination);
    if moved {
      KeptElsewhere(original, middle, fs.trees, record, stamps, i);
      assert fs.history[..|middleHistory|] == middleHistory;
    }
  }

  ghost predicate Untouched(path: string, record: seq<Publication>, stamps: seq<string>, from: nat, to: nat)
    requires from <= to <= |record| == |stamps|
  {
    forall j | from <= j < to && record[j].setAside != "" :: NotOf(path, record, stamps, j)
  }

  method Rollback(fs: FileSystem, items: array<Publication>, count: nat,
                  ghost original: Trees, ghost record: seq<Publication>, ghost stamps: seq<string>)
    requires count <= items.Length == |record| == |stamps| && Tracks(items[..], record) && Separate(record, stamps)
    requires AllKept(original, fs.trees, record, stamps)
    requires forall j | 0 <= j < count && record[j].setAside != "" :: SetAside(original, fs.trees, record[j], stamps[j])
    requires !fs.undoing
    modifies fs
    ensures old(fs.history) <= fs.history && HistoryKept(original, fs.history, |old(fs.history)|, record, stamps)
    ensures AllKept(original, fs.trees, record, stamps)
    ensures !fs.undoing && old(fs.undoFaults) <= fs.undoFaults
    ensures fs.undoFaults == old(fs.undoFaults) ==> forall j | 0 <= j < count && record[j].setAside != "" ::
                        Restored(original, fs.trees, record[j].destination)
    ensures forall p | Untouched(p, record, stamps, 0, count) :: SameAt(old(fs.trees), fs.trees, p)
    ensures NothingAside(record) ==> fs.trees == old(fs.trees) && fs.history == old(fs.history)
    ensures old(fs.faults) <= fs.faults
  {
    fs.undoing := true;
    var i := count;
    while i > 0
      invariant 0 <= i <= count && Tracks(items[..], record) && old(fs.faults) <= fs.faults
      invariant old(fs.history) <= fs.history && HistoryKept(original, fs.history, |old(fs.history)|, record, stamps)
      invariant AllKept(original, fs.trees, record, stamps)
      invariant forall j | 0 <= j < i && record[j].setAside != "" :: SetAside(original, fs.trees, record[j], stamps[j])
      invariant fs.undoing && old(fs.undoFaults) <= fs.undoFaults
      invariant fs.undoFaults == old(fs.undoFaults) ==> forall j | i <= j < count && record[j].setAside != "" ::
                            Restored(original, fs.trees, record[j].destination)
      invariant forall p | Untouched(p, record, stamps, i, count) :: SameAt(old(fs.trees), fs.trees, p)
      invariant NothingAside(record) ==> fs.trees == old(fs.trees) && fs.history == old(fs.history)
    {
      ghost var reached := fs.trees;
      i := i - 1;
      assert items[..][i] == items[i];
      if items[i].setAside != "" {
        ghost var before := fs.trees;
        Undo(fs, original, record, stamps, i, items[i].destination, items[i].setAside);
        forall j | 0 <= j < |record| && j != i
          ensures SameAt(before, fs.trees, record[j].destination)
          ensures SameAt(before, fs.trees, OldPath(record[j].destination, stamps[j]))
        {
          assert NotOf(record[j].destination, record, stamps, i);
          assert NotOf(OldPath(record[j].destination, stamps[j]), record, stamps, i);
        }
      }
      forall p | Untouched(p, record, stamps, i, count)
        ensures SameAt(old(fs.trees), fs.trees, p)
      {
        assert Untouched(p, record, stamps, i + 1, count);
        assert SameAt(reached, fs.trees, p) by {
          assert record[i].setAside != "" ==> NotOf(p, record, stamps, i);
        }
      }
    }
    fs.undoing := false;
  }

  /** A name for a previous tree is taken by files already. */
  ghost predicate AsideTaken(original: Trees, items: seq<Publication>, stamps: seq<string>)
    requires |items| == |stamps|
  {
    exists i :: 0 <= i < |items| && OldPath(items[i].destination, stamps[i]) in original
  }

  ghost predicate StagedMissing(original: Trees, items: seq<Publication>) {
    exists i :: 0 <= i < |items| && items[i].temp !in original
  }

  /** Items before count are installed and later ones untouched. */
  ghost predicate Progress(original: Trees, trees: Trees, items: seq<Publication>, stamps: seq<string>, count: nat)
    requires |items| == |stamps|
  {
    && count <= |items|
    && (forall j | 0 <= j < count :: ItemInstalled(original, trees, items[j], stamps[j]))
    && (forall j | count <= j < |items| ::
          items[j].setAside == "" && SameAt(original, trees, items[j].destination) && SameAt(original, trees, items[j].temp)
          && SameAt(original, trees, OldPath(items[j].destination, stamps[j])))
  }

  lemma ProgressKeeps(original: Trees, trees: Trees, items: seq<Publication>, stamps: seq<string>, count: nat)
    requires |items| == |stamps| && Progress(original, trees, items, stamps, count)
    ensures AllKept(original, trees, items, stamps)
  {
    forall i | 0 <= i < |items|
      ensures ItemKept(original, trees, items[i].destination, OldPath(items[i].destination, stamps[i]))
    {
      if i < count {
        assert ItemInstalled(original, trees, items[i], stamps[i]);
      }
    }
  }

  /** Item i could not be installed: it is untouched, or its previous tree is set aside and its destination empty. */
  ghost predicate StoppedAt(original: Trees, trees: Trees, items: seq<Publication>, stamps: seq<string>, i: nat, aside: bool)
    requires |items| == |stamps|
  {
    && i < |items|
    && (forall j | 0 <= j < i :: ItemInstalled(original, trees, items[j], stamps[j]))
    && (if aside then SetAside(original, trees, items[i], stamps[i]) else SameAt(original, trees, items[i].destination))
    && (forall j | i < j < |items| ::
          items[j].setAside == "" && SameAt(original, trees, items[j].destination)
          && SameAt(original, trees, OldPath(items[j].destination, stamps[j])))
  }

  lemma StoppedKeeps(original: Trees, trees: Trees, items: seq<Publication>, stamps: seq<string>, i: nat, aside: bool)
    requires |items| == |stamps| && StoppedAt(original, trees, items, stamps, i, aside)
    ensures AllKept(original, trees, items, stamps)
  {
    forall j | 0 <= j < |items|
      ensures ItemKept(original, trees, items[j].destination, OldPath(items[j].destination, stamps[j]))
    {
      if j < i {
        assert ItemInstalled(original, trees, items[j], stamps[j]);
      }
    }
  }

  /** Rollback of an operation that stopped at item i. */
  method RollbackFrom(fs: FileSystem, items: array<Publication>, i: nat, aside: bool,
                      ghost original: Trees, ghost record: seq<Publication>, ghost stamps: seq<string>)
    requires items.Length == |record| == |stamps| && Tracks(items[..], record) && Separate(record, stamps)
    requires StoppedAt(original, fs.trees, record, stamps, i, aside)
    requires !fs.undoing
    modifies fs
    ensures old(fs.history) <= fs.history && HistoryKept(original, fs.history, |old(fs.history)|, record, stamps)
    ensures AllKept(original, fs.trees, record, stamps)
    ensures !fs.undoing && old(fs.undoFaults) <= fs.undoFaults
    ensures fs.undoFaults == old(fs.undoFaults) ==> RolledBack(original, original, fs.trees, record, i)
    ensures NothingAside(record) ==> fs.trees == old(fs.trees) && fs.history == old(fs.history)
    ensures old(fs.faults) <= fs.faults
  {
    ghost var before := fs.trees;
    StoppedKeeps(original, before, record, stamps, i, aside);
    var count := if aside then i + 1 else i;
    forall j | 0 <= j < count && record[j].setAside != ""
      ensures SetAside(original, before, record[j], stamps[j])
    {
      if j < i {
        assert ItemInstalled(original, before, record[j], stamps[j]);
      }
    }
    ghost var earlier := fs.undoFaults;
    Rollback(fs, items, count, original, record, stamps);
    if fs.undoFaults == earlier {
      RollbackYields(original, before, fs.trees, record, stamps, i, aside);
    }
  }

  lemma DestinationUntouched(record: seq<Publication>, stamps: seq<string>, j: nat, count: nat)
    requires count <= |record| == |stamps| && Separate(record, stamps)
    requires j < |record| && !(j < count && record[j].setAside != "")
    ensures Untouched(record[j].destination, record, stamps, 0, count)
  {
    forall k | 0 <= k < count && record[k].setAside != ""
      ensures NotOf(record[j].destination, record, stamps, k)
    {
      assert j < k || k < j;
    }
  }

  /** What the calls of a rollback amount to when all of them succeed. */
  lemma RollbackYields(original: Trees, before: Trees, after: Trees, record: seq<Publication>, stamps: seq<string>, i: nat, aside: bool)
    requires |record| == |stamps| && Separate(record, stamps) && StoppedAt(original, before, record, stamps, i, aside)
    requires var count := if aside then i + 1 else i;
             && (forall j | 0 <= j < count && record[j].setAside != "" :: Restored(original, after, record[j].destination))
             && (forall p | Untouched(p, record, stamps, 0, count) :: SameAt(before, after, p))
    ensures RolledBack(original, original, after, record, i)
  {
    var count := if aside then i + 1 else i;
    forall j | 0 <= j < |record| && !(j < count && record[j].setAside != "")
      ensures SameAt(before, after, record[j].destination)
    {
      DestinationUntouched(record, stamps, j, count);
    }
    forall j | 0 <= j < i && record[j].setAside == ""
      ensures record[j].temp in original && Holds(after, record[j].destination, original[record[j].temp])
              && record[j].destination !in original
    {
      assert ItemInstalled(original, before, record[j], stamps[j]);
    }
  }

  /** Moving a previous tree aside keeps everything else. */
  lemma SetAsideKeeps(original: Trees, before: Trees, after: Trees, record: seq<Publication>, marked: seq<Publication>,
                      stamps: seq<string>, i: nat)
    requires |record| == |stamps| && i < |record| && Separate(record, stamps) && Progress(original, before, record, stamps, i)
    requires var d := record[i].destination; var aside := OldPath(d, stamps[i]);
             && d in before && after == (before - {d})[aside := before[d]]
             && marked == record[i := record[i].(setAside := aside)]
    ensures StoppedAt(original, after, marked, stamps, i, true)
    ensures forall j | i <= j < |record| :: SameAt(original, after, record[j].temp)
  {
    forall j | 0 <= j < i
      ensures ItemInstalled(original, after, marked[j], stamps[j])
    {
      assert ItemInstalled(original, before, record[j], stamps[j]);
    }
  }

  /** A rename of the staged tree of item i does not touch the paths of the other items. */
  lemma OthersUntouched(before: Trees, after: Trees, record: seq<Publication>, stamps: seq<string>, i: nat, j: nat)
    requires |record| == |stamps| && i < |record| && j < |record| && i != j && Separate(record, stamps)
    requires Renamed(before, record[i].temp, record[i].destination) == Some(after)
    ensures SameAt(before, after, record[j].destination) && SameAt(before, after, OldPath(record[j].destination, stamps[j]))
    ensures SameAt(before, after, record[j].temp)
  {
    assert record[i].temp != record[j].temp && record[i].destination != record[j].destination;
  }

  lemma InstalledStays(original: Trees, before: Trees, after: Trees, record: seq<Publication>, stamps: seq<string>, i: nat, j: nat)
    requires |record| == |stamps| && j < i < |record| && Separate(record, stamps)
    requires Renamed(before, record[i].temp, record[i].destination) == Some(after)
    requires ItemInstalled(original, before, record[j], stamps[j])
    ensures ItemInstalled(original, after, record[j], stamps[j])
  {
    OthersUntouched(before, after, record, stamps, i, j);
  }

  lemma NewlyInstalled(original: Trees, before: Trees, after: Trees, record: seq<Publication>, stamps: seq<string>, i: nat, aside: bool)
    requires |record| == |stamps| && i < |record| && Separate(record, stamps)
    requires Renamed(before, record[i].temp, record[i].destination) == Some(after) && SameAt(original, before, record[i].temp)
    requires (record[i].setAside != "") == aside
    requires if aside then SetAside(original, before, record[i], stamps[i]) else SameAt(original, before, record[i].destination)
    ensures ItemInstalled(original, after, record[i], stamps[i])
  {
  }

  /** Moving a staged tree into place completes its item. */
  lemma InstallKeeps(original: Trees, before: Trees, after: Trees, record: seq<Publication>, stamps: seq<string>, i: nat, aside: bool)
    requires |record| == |stamps| && Separate(record, stamps) && StoppedAt(original, before, record, stamps, i, aside)
    requires (record[i].setAside != "") == aside
    requires forall j | i <= j < |record| :: SameAt(original, before, record[j].temp)
    requires Renamed(before, record[i].temp, record[i].destination) == Some(after)
    ensures Progress(original, after, record, stamps, i + 1)
  {
    NewlyInstalled(original, before, after, record, stamps, i, aside);
    forall j | 0 <= j < i
      ensures ItemInstalled(original, after, record[j], stamps[j])
    {
      InstalledStays(original, before, after, record, stamps, i, j);
    }
    forall j | i < j < |record|
      ensures SameAt(original, after, record[j].destination) && SameAt(original, after, record[j].temp)
      ensures SameAt(original, after, OldPath(record[j].destination, stamps[j]))
    {
      OthersUntouched(before, after, record, stamps, i, j);
    }
  }

  lemma SeparateIgnoresMarks(a: seq<Publication>, b: seq<Publication>, stamps: seq<string>)
    requires |a| == |b| == |stamps| && Separate(a, stamps)
    requires forall i | 0 <= i < |a| :: a[i].destination == b[i].destination && a[i].temp == b[i].temp
    ensures Separate(b, stamps)
  {
  }

  /** Sets the previous tree of item i aside when there is one. */
  method MoveAside(fs: FileSystem, items: array<Publication>, i: nat, replace: bool, stamps: seq<string>,
                   ghost original: Trees, ghost before: seq<Publication>)
    returns (r: Result<(), RestoreError>, aside: bool, ghost record: seq<Publication>)
    requires i < items.Length == |before| == |stamps| && Tracks(items[..], before)
    requires Separate(before, stamps) && Progress(original, fs.trees, before, stamps, i)
    requires !fs.undoing
    modifies fs`trees, fs`history, fs`faults, fs`undoFaults, items
    ensures |record| == |before| && record == before[i := before[i].(setAside := record[i].setAside)] && Tracks(items[..], record)
    ensures Separate(record, stamps)
    ensures forall j | 0 <= j < items.Length :: items[j].temp == old(items[j].temp)
    ensures old(fs.history) <= fs.history && HistoryKept(original, fs.history, |old(fs.history)|, record, stamps)
    ensures StoppedAt(original, fs.trees, record, stamps, i, aside)
    ensures forall j | i <= j < |record| :: SameAt(original, fs.trees, record[j].temp)
    ensures r.Ok? ==> (record[i].setAside != "") == aside
    ensures r != Err(Refused) && (r == Err(DestinationExists) ==> !replace)
    ensures old(fs.faults) <= fs.faults && fs.undoFaults == old(fs.undoFaults)
    ensures r == Err(DestinationExists) ==> items[i].destination in fs.trees
    ensures r == Err(OperationFailed) ==> old(fs.faults) < fs.faults || AsideTaken(original, before, stamps)
    ensures r.Ok? ==> items[i].destination !in fs.trees || old(fs.faults) < fs.faults
    ensures !replace ==> !aside && record == before && fs.trees == old(fs.trees) && fs.history == old(fs.history)
  {
    record, aside := before, false;
    assert items[..][i] == items[i];
    var ok := fs.Try();
    if !ok {
      return Err(OperationFailed), aside, record;
    }
    var presence := fs.Inspect(items[i].destination);
    if presence != Present {
      return Ok(()), aside, record;
    }
    if !replace {
      return Err(DestinationExists), aside, record;
    }
    var name := OldPath(items[i].destination, stamps[i]);
    ghost var start := fs.trees;
    items[i] := items[i].(setAside := name);
    record := record[i := record[i].(setAside := name)];
    SeparateIgnoresMarks(before, record, stamps);
    aside := fs.Rename(items[i].destination, name);
    if aside {
      SetAsideKeeps(original, start, fs.trees, before, record, stamps, i);
      StoppedKeeps(original, fs.trees, record, stamps, i, true);
    }
    r := if aside then Ok(()) else Err(OperationFailed);
  }

  /** Sets the previous tree of item i aside and moves its staged tree into place, or stops in between. */
  method InstallItem(fs: FileSystem, items: array<Publication>, i: nat, replace: bool, stamps: seq<string>,
                     ghost original: Trees, ghost before: seq<Publication>)
    returns (r: Result<(), RestoreError>, aside: bool, ghost record: seq<Publication>)
    requires i < items.Length == |before| == |stamps| && Tracks(items[..], before) && items[i].temp == before[i].temp
    requires Separate(before, stamps) && Progress(original, fs.trees, before, stamps, i)
    requires !fs.undoing
    modifies fs`trees, fs`history, fs`faults, fs`undoFaults, items
    ensures |record| == items.Length && Tracks(items[..], record) && Separate(record, stamps)
    ensures forall j | 0 <= j < |record| :: record[j].temp == before[j].temp && record[j].destination == before[j].destination
    ensures forall j | i < j < items.Length :: items[j].temp == old(items[j].temp)
    ensures old(fs.history) <= fs.history && HistoryKept(original, fs.history, |old(fs.history)|, record, stamps)
    ensures if r.Ok? then Progress(original, fs.trees, record, stamps, i + 1) else StoppedAt(original, fs.trees, record, stamps, i, aside)
    ensures r != Err(Refused) && (r == Err(DestinationExists) ==> !replace)
    ensures old(fs.faults) <= fs.faults && fs.undoFaults == old(fs.undoFaults)
    ensures r == Err(DestinationExists) ==> before[i].destination in original
    ensures r == Err(OperationFailed) ==>
              old(fs.faults) < fs.faults || AsideTaken(original, before, stamps) || StagedMissing(original, before)
    ensures !replace ==> record == before
    ensures !replace ==> if r.Ok? then Renamed(old(fs.trees), before[i].temp, before[i].destination) == Some(fs.trees)
                                       && fs.history == old(fs.history) + [fs.trees]
                         else fs.trees == old(fs.trees) && fs.history == old(fs.history)
  {
    r, aside, record := MoveAside(fs, items, i, replace, stamps, original, before);
    assert items[..][i] == items[i];
    if r.Err? {
      return;
    }
    ghost var middle := fs.trees;
    var ok := fs.Rename(items[i].temp, items[i].destination);
    if !ok {
      return Err(OperationFailed), aside, record;
    }
    InstallKeeps(original, middle, fs.trees, record, stamps, i, aside);
    ProgressKeeps(original, fs.trees, record, stamps, i + 1);
    items[i] := items[i].(temp := "");
  }

  /** A tree moved to a free destination leaves every destination that existed as it was. */
  lemma InstallKeepsExisting(original: Trees, before: Trees, after: Trees, items: seq<Publication>, stamps: seq<string>, i: nat)
    requires |items| == |stamps| && i < |items| && Separate(items, stamps) && Progress(original, before, items, stamps, i)
    requires ExistingSame(original, before, items) && Renamed(before, items[i].temp, items[i].destination) == Some(after)
    ensures ExistingSame(original, after, items)
  {
    forall j | 0 <= j < |items| && items[j].destination in original
      ensures SameAt(original, after, items[j].destination)
    {
      if j != i {
        OthersUntouched(before, after, items, stamps, i, j);
      }
    }
  }

  /** Nothing was set aside, and no destination that existed changed since then, in any state. */
  ghost predicate Unreplaced(original: Trees, trees: Trees, history: seq<Trees>, from: nat, items: seq<Publication>) {
    && NothingAside(items) && ExistingSame(original, trees, items)
    && forall k | from <= k < |history| :: ExistingSame(original, history[k], items)
  }

  lemma UnreplacedStep(original: Trees, before: Trees, after: Trees, history: seq<Trees>, from: nat, items: seq<Publication>,
                       stamps: seq<string>, i: nat)
    requires |items| == |stamps| && i < |items| && Separate(items, stamps) && Progress(original, before, items, stamps, i)
    requires Unreplaced(original, before, history, from, items)
    requires Renamed(before, items[i].temp, items[i].destination) == Some(after)
    ensures Unreplaced(original, after, history + [after], from, items)
  {
    InstallKeepsExisting(original, before, after, items, stamps, i);
  }

  /** The item is published, or it is not and the rollback has run. */
  method PublishItem(fs: FileSystem, items: array<Publication>, i: nat, replace: bool, stamps: seq<string>,
                     ghost original: Trees, ghost from: nat, ghost before: seq<Publication>)
    returns (r: Result<(), RestoreError>, ghost record: seq<Publication>)
    requires i < items.Length == |before| == |stamps| && Tracks(items[..], before) && items[i].temp == before[i].temp
    requires Separate(before, stamps) && Progress(original, fs.trees, before, stamps, i) && !fs.undoing
    requires HistoryKept(original, fs.history, from, before, stamps)
    requires !replace ==> Unreplaced(original, fs.trees, fs.history, from, before)
    modifies fs, items
    ensures |record| == items.Length && Tracks(items[..], record) && Separate(record, stamps) && !fs.undoing
    ensures forall j | 0 <= j < |record| :: record[j].temp == before[j].temp && record[j].destination == before[j].destination
    ensures forall j | i < j < items.Length :: items[j].temp == old(items[j].temp)
    ensures old(fs.history) <= fs.history && HistoryKept(original, fs.history, from, record, stamps) && old(fs.faults) <= fs.faults
    ensures !replace ==> Unreplaced(original, fs.trees, fs.history, from, record)
    ensures if r.Ok? then fs.undoFaults == old(fs.undoFaults) && Progress(original, fs.trees, record, stamps, i + 1)
            else old(fs.undoFaults) <= fs.undoFaults && AllKept(original, fs.trees, record, stamps)
    ensures r.Err? && fs.undoFaults == old(fs.undoFaults) ==> RolledBack(original, original, fs.trees, record, i)
    ensures r != Err(Refused) && (r == Err(DestinationExists) ==> !replace && before[i].destination in original)
    ensures r == Err(OperationFailed) ==>
              old(fs.faults) < fs.faults || AsideTaken(original, before, stamps) || StagedMissing(original, before)
  {
    ghost var earlier, reached := fs.history, fs.trees;
    var aside;
    r, aside, record := InstallItem(fs, items, i, replace, stamps, original, before);
    KeptIgnoresMarks(original, earlier, from, before, record, stamps);
    if r.Err? {
      RollbackFrom(fs, items, i, aside, original, record, stamps);
    } else if !replace {
      UnreplacedStep(original, reached, fs.trees, earlier, from, record, stamps, i);
    }
  }

  /**
   * Replaces the destinations by the staged trees. Until every staged tree is in place, all previous trees are intact
   * under one of their two names, in every state the directories go through, and whatever fails. Without the replace
   * flag no destination that existed changes in any state, and one that existed is an error. A success without a
   * failed operation leaves no previous tree under its second name.
   */
  method Publish(fs: FileSystem, items: array<Publication>, replace: bool, stamps: seq<string>)
    returns (r: Result<(), RestoreError>, ghost record: seq<Publication>, ghost installed: nat, ghost commit: nat)
    requires |stamps| == items.Length && Separate(items[..], stamps) && forall i | 0 <= i < items.Length :: items[i].setAside == ""
    requires !fs.undoing
    modifies fs, items
    ensures |record| == items.Length && forall i | 0 <= i < |record| ::
              record[i].temp == old(items[i].temp) && record[i].destination == old(items[i].destination)
    ensures old(fs.history) <= fs.history && |old(fs.history)| <= commit <= |fs.history|
    ensures forall k | |old(fs.history)| <= k < commit :: AllKept(old(fs.trees), fs.history[k], record, stamps)
    ensures forall k | commit <= k < |fs.history| :: AllInstalled(old(fs.trees), fs.history[k], record)
    ensures r.Ok? ==> AllInstalled(old(fs.trees), fs.trees, record)
    ensures r.Err? ==> commit == |fs.history| && AllKept(old(fs.trees), fs.trees, record, stamps)
    ensures !fs.undoing && old(fs.undoFaults) <= fs.undoFaults
    ensures r.Err? && fs.undoFaults == old(fs.undoFaults) ==>
              installed < |record| && RolledBack(old(fs.trees), old(fs.trees), fs.trees, record, installed)
    ensures r != Err(Refused) && (r == Err(DestinationExists) ==> !replace)
    ensures old(fs.faults) <= fs.faults
    ensures r == Err(DestinationExists) ==> exists i :: 0 <= i < |record| && record[i].destination in old(fs.trees)
    ensures r == Err(OperationFailed) ==>
              old(fs.faults) < fs.faults || AsideTaken(old(fs.trees), record, stamps) || StagedMissing(old(fs.trees), record)
    ensures !replace ==> Unreplaced(old(fs.trees), fs.trees, fs.history, |old(fs.history)|, record)
    ensures !replace && (exists i :: 0 <= i < |record| && record[i].destination in old(fs.trees)) ==> r.Err?
    ensures r.Ok? && fs.faults == old(fs.faults) ==>
              forall i | 0 <= i < |record| && record[i].destination in old(fs.trees) :: OldPath(record[i].destination, stamps[i]) !in fs.trees
  {
    ghost var original := fs.trees;
    ghost var from := |fs.history|;
    record := items[..];
    installed := 0;
    var i := 0;
    while i < items.Length
      invariant i <= items.Length && |record| == items.Length && Tracks(items[..], record) && old(fs.faults) <= fs.faults
      invariant forall j | 0 <= j < |record| ::
          record[j].temp == old(items[j].temp) && record[j].destination == old(items[j].destination)
      invariant forall j | i <= j < items.Length :: items[j].temp == record[j].temp
      invariant old(fs.history) <= fs.history && HistoryKept(original, fs.history, from, record, stamps)
      invariant !fs.undoing && fs.undoFaults == old(fs.undoFaults)
      invariant Separate(record, stamps) && Progress(original, fs.trees, record, stamps, i)
      invariant !replace ==> Unreplaced(original, fs.trees, fs.history, from, record)
    {
      installed := i;
      r, record := PublishItem(fs, items, i, replace, stamps, original, from, record);
      if r.Err? {
        return r, record, installed, |fs.history|;
      }
      i := i + 1;
    }
    commit := |fs.history|;
    r := Ok(());
    RemoveSetAside(fs, items, original, record, stamps);
  }

  /** The set-aside names are not part of what is kept. */
  lemma KeptIgnoresMarks(original: Trees, history: seq<Trees>, from: nat, a: seq<Publication>, b: seq<Publication>, stamps: seq<string>)
    requires |a| == |b| == |stamps| && HistoryKept(original, history, from, a, stamps)
    requires forall i | 0 <= i < |a| :: a[i].destination == b[i].destination
    ensures HistoryKept(original, history, from, b, stamps)
  {
  }

  /** Removes the previous trees once every staged tree is in place; failures are ignored. */
  method RemoveSetAside(fs: FileSystem, items: array<Publication>, ghost original: Trees, ghost record: seq<Publication>, ghost stamps: seq<string>)
    requires items.Length == |record| == |stamps| && Tracks(items[..], record) && Separate(record, stamps)
    requires AllInstalled(original, fs.trees, record)
    requires forall i | 0 <= i < |record| && record[i].setAside != "" :: record[i].setAside == OldPath(record[i].destination, stamps[i])
    requires !fs.undoing
    modifies fs`trees, fs`history, fs`faults, fs`undoFaults
    ensures old(fs.history) <= fs.history
    ensures AllInstalled(original, fs.trees, record)
    ensures forall k | |old(fs.history)| <= k < |fs.history| :: AllInstalled(original, fs.history[k], record)
    ensures old(fs.faults) <= fs.faults && fs.undoFaults == old(fs.undoFaults)
    ensures fs.faults == old(fs.faults) ==> forall i | 0 <= i < |record| && record[i].setAside != "" :: record[i].setAside !in fs.trees
    ensures NothingAside(record) ==> fs.trees == old(fs.trees) && fs.history == old(fs.history)
  {
    for i := 0 to items.Length
      invariant old(fs.history) <= fs.history && old(fs.faults) <= fs.faults && fs.undoFaults == old(fs.undoFaults)
      invariant fs.faults == old(fs.faults) ==> forall j | 0 <= j < i && record[j].setAside != "" :: record[j].setAside !in fs.trees
      invariant NothingAside(record) ==> fs.trees == old(fs.trees) && fs.history == old(fs.history)
      invariant AllInstalled(original, fs.trees, record)
      invariant forall k | |old(fs.history)| <= k < |fs.history| :: AllInstalled(original, fs.history[k], record)
    {
      assert items[..][i] == items[i];
      if items[i].setAside != "" {
        ghost var before, earlier := fs.trees, fs.history;
        var _ := fs.RemoveAll(items[i].setAside);
        forall j | 0 <= j < i && record[j].setAside !in before
          ensures record[j].setAside !in fs.trees
        {
          assert record[j].setAside == record[i].setAside || SameAt(before, fs.trees, record[j].setAside);
        }
        forall j | 0 <= j < |record|
          ensures SameAt(before, fs.trees, record[j].destination)
          ensures forall k | |earlier| <= k < |fs.history| :: SameAt(before, fs.history[k], record[j].destination)
        {
        }
      }
    }
  }
}
