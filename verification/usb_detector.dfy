/**
 * The media watcher (`USBDetector.run`): while the document has not been
 * signed it scans every file-system root; on a removable root that is a
 * directory it looks through the immediate entries for a regular file named
 * exactly `private.enc`, and publishes (found, path of the last match) into
 * the shared `Sign` object. The roots, their file-store descriptions and
 * their listings are the operating system's answers and come in as data.
 */
module MediaWatch {
  import opened Wrappers
  import opened Strings
  import opened Signing

  const KeyFileName: string := "private.enc"

  /** An entry of `root.listFiles()`: its name, `getPath()` and `isFile()`. */
  datatype Entry = Entry(name: string, path: string, isFile: bool)

  /**
   * A root of `File.listRoots()`: the text of its file store (`None` when
   * `Files.getFileStore` throws), `isDirectory()`, and `listFiles()` (`None`
   * for its null).
   */
  datatype Root = Root(fileStore: Option<string>, isDirectory: bool, listing: Option<seq<Entry>>)

  /** What one scan publishes: `setPendriveRecognized(fl)` and `setKeyPath(tmpPath)`. */
  datatype Snapshot = Snapshot(recognized: bool, keyPath: string)

  /** The IOException that ends the watcher, at the root where it happened. */
  datatype ScanError = FileStoreUnavailable(root: nat)

  const RemovableMark: string := "removable"

  /** Characters `i` to `i + 8` of the file-store text spell `removable` in any mix of cases. */
  predicate RemovableAt(fileStore: string, i: int)
  {
    0 <= i && i + |RemovableMark| <= |fileStore| && ToLower(fileStore[i..i + |RemovableMark|]) == RemovableMark
  }

  /** The lower-cased file-store text mentions `removable`. */
  predicate IsRemovable(fileStore: string)
    ensures IsRemovable(fileStore) <==> exists i :: RemovableAt(fileStore, i)
  {
    RemovableWindow(fileStore);
    Contains(ToLower(fileStore), RemovableMark)
  }

  lemma RemovableWindow(fileStore: string)
    ensures Contains(ToLower(fileStore), RemovableMark) <==> exists i :: RemovableAt(fileStore, i)
  {
    var n := |RemovableMark|;
    var lower := ToLower(fileStore);
    if Contains(lower, RemovableMark) {
      ContainsWitness(lower, RemovableMark);
      var i :| OccursAt(lower, RemovableMark, i);
      assert lower[i..i + n] == ToLower(fileStore[i..i + n]);
      assert RemovableAt(fileStore, i);
    }
    if exists i :: RemovableAt(fileStore, i) {
      var i :| RemovableAt(fileStore, i);
      assert lower[i..i + n] == ToLower(fileStore[i..i + n]);
      ContainsAt(lower, RemovableMark, i);
    }
  }

  predicate IsKeyFile(e: Entry)
  {
    e.isFile && e.name == KeyFileName
  }

  /** The roots whose entries the scan looks at. */
  predicate Searched(root: Root)
  {
    root.fileStore.Some? && IsRemovable(root.fileStore.value) && root.isDirectory && root.listing.Some?
  }

  /** Entry j of root i is a key file the scan finds. */
  predicate KeyEntryAt(roots: seq<Root>, i: int, j: int)
  {
    0 <= i < |roots| && Searched(roots[i]) && 0 <= j < |roots[i].listing.value| && IsKeyFile(roots[i].listing.value[j])
  }

  /** The paths of the key files among some entries, in listing order. */
  function EntryMatches(entries: seq<Entry>): seq<string>
  {
    if entries == [] then []
    else
      var last := entries[|entries| - 1];
      EntryMatches(entries[..|entries| - 1]) + (if IsKeyFile(last) then [last.path] else [])
  }

  function RootMatches(root: Root): seq<string>
  {
    if Searched(root) then EntryMatches(root.listing.value) else []
  }

  /** The paths of all key files found, in scan order: roots first, then listing order. */
  function Matches(roots: seq<Root>): seq<string>
  {
    if roots == [] then [] else Matches(roots[..|roots| - 1]) + RootMatches(roots[|roots| - 1])
  }

  /** Last match wins; no match publishes (false, ""). */
  function SnapshotOf(matches: seq<string>): Snapshot
  {
    if matches == [] then Snapshot(false, "") else Snapshot(true, matches[|matches| - 1])
  }

  /** The first root whose file store cannot be read, or the number of roots. */
  function FirstUnavailable(roots: seq<Root>): (k: nat)
    ensures k <= |roots|
    ensures forall i :: 0 <= i < k ==> roots[i].fileStore.Some?
    ensures k < |roots| ==> roots[k].fileStore.None?
  {
    if roots == [] || roots[0].fileStore.None? then 0 else 1 + FirstUnavailable(roots[1..])
  }

  /** One scan: an unreadable file store anywhere ends it with an error. */
  function Scan(roots: seq<Root>): (r: Result<Snapshot, ScanError>)
    ensures r.Err? <==> exists i :: 0 <= i < |roots| && roots[i].fileStore.None?
    ensures r.Err? ==>
      && r.error.root < |roots| && roots[r.error.root].fileStore.None?
      && forall i :: 0 <= i < r.error.root ==> roots[i].fileStore.Some?
  {
    var k := FirstUnavailable(roots);
    if k < |roots| then Err(FileStoreUnavailable(k)) else Ok(SnapshotOf(Matches(roots)))
  }

  /** The body of `run`'s loop, from the roots to the values it publishes. */
  method ScanOnce(roots: seq<Root>) returns (r: Result<Snapshot, ScanError>)
    ensures r == Scan(roots)
  {
    var fl := false;
    var tmpPath := "";
    for i := 0 to |roots|
      invariant forall k :: 0 <= k < i ==> roots[k].fileStore.Some?
      invariant Snapshot(fl, tmpPath) == SnapshotOf(Matches(roots[..i]))
    {
      var root := roots[i];
      if root.fileStore.None? {
        FirstUnavailableAt(roots, i);
        return Err(FileStoreUnavailable(i));
      }
      MatchesStep(roots, i);
      SnapshotOfAppend(Matches(roots[..i]), RootMatches(root));
      var isUSB := Contains(ToLower(root.fileStore.value), "removable");
      if isUSB && root.isDirectory && root.listing.Some? {
        fl, tmpPath := SearchListing(root.listing.value, fl, tmpPath);
      }
    }
    assert roots[..|roots|] == roots;
    FirstUnavailableAt(roots, |roots|);
    r := Ok(Snapshot(fl, tmpPath));
  }

  /**
   * The inner loop over one listing: a key file sets the flag and its path,
   * so the values after the loop are those of the last key file listed, or
   * the values before the loop when none is.
   */
  method SearchListing(files: seq<Entry>, fl: bool, tmpPath: string) returns (fl': bool, tmpPath': string)
    ensures Snapshot(fl', tmpPath') ==
      if EntryMatches(files) == [] then Snapshot(fl, tmpPath) else SnapshotOf(EntryMatches(files))
  {
    fl', tmpPath' := fl, tmpPath;
    for j := 0 to |files|
      invariant Snapshot(fl', tmpPath') ==
        if EntryMatches(files[..j]) == [] then Snapshot(fl, tmpPath) else SnapshotOf(EntryMatches(files[..j]))
    {
      EntryMatchesStep(files, j);
      if files[j].isFile && files[j].name == KeyFileName {
        fl' := true;
        tmpPath' := files[j].path;
      }
    }
    assert files[..|files|] == files;
  }

  /** Appending matches: the last one wins, and no new match keeps the old snapshot. */
  lemma SnapshotOfAppend(before: seq<string>, more: seq<string>)
    ensures SnapshotOf(before + more) == if more == [] then SnapshotOf(before) else SnapshotOf(more)
  {
    if more == [] {
      assert before + more == before;
    }
  }

  lemma MatchesStep(roots: seq<Root>, i: nat)
    requires i < |roots|
    ensures Matches(roots[..i + 1]) == Matches(roots[..i]) + RootMatches(roots[i])
  {
    assert roots[..i + 1][..i] == roots[..i];
  }

  lemma EntryMatchesStep(entries: seq<Entry>, j: nat)
    requires j < |entries|
    ensures EntryMatches(entries[..j + 1]) == EntryMatches(entries[..j]) + (if IsKeyFile(entries[j]) then [entries[j].path] else [])
  {
    assert entries[..j + 1][..j] == entries[..j];
  }

  /** The first unavailable root is the first whose file store is missing. */
  lemma FirstUnavailableAt(roots: seq<Root>, k: nat)
    requires k <= |roots|
    requires forall i :: 0 <= i < k ==> roots[i].fileStore.Some?
    requires k < |roots| ==> roots[k].fileStore.None?
    ensures FirstUnavailable(roots) == k
  {
  }

  /** Among some entries: there is a match iff some entry is a key file, and the last match is the last key file. */
  lemma {:induction false} EntryMatchesLast(entries: seq<Entry>)
    ensures EntryMatches(entries) == [] <==> forall j :: 0 <= j < |entries| ==> !IsKeyFile(entries[j])
    ensures EntryMatches(entries) != [] ==>
      exists j :: 0 <= j < |entries| && IsKeyFile(entries[j])
        && EntryMatches(entries)[|EntryMatches(entries)| - 1] == entries[j].path
        && forall j' :: j < j' < |entries| ==> !IsKeyFile(entries[j'])
  {
    if entries != [] {
      var init := entries[..|entries| - 1];
      EntryMatchesLast(init);
      assert forall j :: 0 <= j < |init| ==> init[j] == entries[j];
      if !IsKeyFile(entries[|entries| - 1]) && EntryMatches(init) != [] {
        var j :| 0 <= j < |init| && IsKeyFile(init[j])
          && EntryMatches(init)[|EntryMatches(init)| - 1] == init[j].path
          && forall j' :: j < j' < |init| ==> !IsKeyFile(init[j']);
        assert IsKeyFile(entries[j]);
      }
    }
  }

  /** The key entries of all roots but the last are those of the whole that are not in the last root. */
  lemma KeyEntryAtInit(roots: seq<Root>)
    requires roots != []
    ensures forall i, j :: KeyEntryAt(roots[..|roots| - 1], i, j) <==> i < |roots| - 1 && KeyEntryAt(roots, i, j)
  {
    assert forall i :: 0 <= i < |roots| - 1 ==> roots[..|roots| - 1][i] == roots[i];
  }

  /** Among some roots: the same, with scan order roots first, then listing order. */
  lemma {:induction false} MatchesLast(roots: seq<Root>)
    ensures Matches(roots) == [] <==> forall i, j :: !KeyEntryAt(roots, i, j)
    ensures Matches(roots) != [] ==>
      exists i, j :: KeyEntryAt(roots, i, j)
        && Matches(roots)[|Matches(roots)| - 1] == roots[i].listing.value[j].path
        && forall i', j' :: KeyEntryAt(roots, i', j') ==> i' < i || (i' == i && j' <= j)
  {
    if roots != [] {
      var n := |roots| - 1;
      MatchesLast(roots[..n]);
      KeyEntryAtInit(roots);
      if RootMatches(roots[n]) != [] {
        MatchesInLastRoot(roots);
      } else {
        MatchesNotInLastRoot(roots);
      }
    }
  }

  lemma MatchesInLastRoot(roots: seq<Root>)
    requires roots != [] && RootMatches(roots[|roots| - 1]) != []
    ensures Matches(roots) != []
    ensures
      exists i, j :: KeyEntryAt(roots, i, j)
        && Matches(roots)[|Matches(roots)| - 1] == roots[i].listing.value[j].path
        && forall i', j' :: KeyEntryAt(roots, i', j') ==> i' < i || (i' == i && j' <= j)
  {
    var n := |roots| - 1;
    var entries := roots[n].listing.value;
    EntryMatchesLast(entries);
    var j :| 0 <= j < |entries| && IsKeyFile(entries[j])
      && EntryMatches(entries)[|EntryMatches(entries)| - 1] == entries[j].path
      && forall j' :: j < j' < |entries| ==> !IsKeyFile(entries[j']);
    assert KeyEntryAt(roots, n, j);
  }

  lemma MatchesNotInLastRoot(roots: seq<Root>)
    requires roots != [] && RootMatches(roots[|roots| - 1]) == []
    requires var init := roots[..|roots| - 1];
      && (Matches(init) == [] <==> forall i, j :: !KeyEntryAt(init, i, j))
      && (Matches(init) != [] ==>
        exists i, j :: KeyEntryAt(init, i, j)
          && Matches(init)[|Matches(init)| - 1] == init[i].listing.value[j].path
          && forall i', j' :: KeyEntryAt(init, i', j') ==> i' < i || (i' == i && j' <= j))
    ensures Matches(roots) == [] <==> forall i, j :: !KeyEntryAt(roots, i, j)
    ensures Matches(roots) != [] ==>
      exists i, j :: KeyEntryAt(roots, i, j)
        && Matches(roots)[|Matches(roots)| - 1] == roots[i].listing.value[j].path
        && forall i', j' :: KeyEntryAt(roots, i', j') ==> i' < i || (i' == i && j' <= j)
  {
    var n := |roots| - 1;
    var init := roots[..n];
    KeyEntryAtInit(roots);
    assert Matches(roots) == Matches(init) + [];
    if Searched(roots[n]) {
      EntryMatchesLast(roots[n].listing.value);
    }
    assert forall j :: !KeyEntryAt(roots, n, j);
    if Matches(init) != [] {
      var i, j :| KeyEntryAt(init, i, j)
        && Matches(init)[|Matches(init)| - 1] == init[i].listing.value[j].path
        && forall i', j' :: KeyEntryAt(init, i', j') ==> i' < i || (i' == i && j' <= j);
      assert KeyEntryAt(roots, i, j);
    }
  }

  /**
   * After one scan: it fails iff some root's file store cannot be read;
   * otherwise `recognized` holds iff some removable directory root lists a
   * regular file named exactly `private.enc`, the path published is that of
   * the last such file in scan order, and with no match the snapshot is
   * (false, "") whatever was published before.
   */
  lemma ScanSpec(roots: seq<Root>)
    ensures Scan(roots).Err? <==> exists i :: 0 <= i < |roots| && roots[i].fileStore.None?
    ensures Scan(roots).Ok? ==>
      (Scan(roots).value.recognized <==> exists i, j :: KeyEntryAt(roots, i, j))
    ensures Scan(roots).Ok? && !Scan(roots).value.recognized ==> Scan(roots).value == Snapshot(false, "")
    ensures Scan(roots).Ok? && Scan(roots).value.recognized ==>
      exists i, j :: KeyEntryAt(roots, i, j)
        && Scan(roots).value.keyPath == roots[i].listing.value[j].path
        && forall i', j' :: KeyEntryAt(roots, i', j') ==> i' < i || (i' == i && j' <= j)
  {
    MatchesLast(roots);
  }

  /** The name must match exactly: case matters, and a directory with that name does not count. */
  lemma NameMatchIsExact(path: string)
    ensures !IsKeyFile(Entry("PRIVATE.ENC", path, true))
    ensures !IsKeyFile(Entry(KeyFileName, path, false))
    ensures IsKeyFile(Entry(KeyFileName, path, true))
  {
    assert "PRIVATE.ENC"[0] != KeyFileName[0];
  }

  // ------------------------------------------------------------- the loop

  /** What the watcher sees at the top of one iteration: the `signed` flag, and the roots it would scan. */
  datatype Poll = Poll(signedFlag: bool, roots: seq<Root>)

  /** How the watcher ended: scans completed, the snapshot last published, and the exception if one ended it. */
  datatype WatchEnd = WatchEnd(scans: nat, published: Snapshot, failure: Option<ScanError>)

  /**
   * `while (!signed) { scan; publish }` over the polls observed, starting
   * from the snapshot already published. It stops at the first poll that
   * sees `signed`, at the first failed scan, or when the observations run out.
   */
  function Watch(polls: seq<Poll>, current: Snapshot): (w: WatchEnd)
    ensures w.scans <= |polls|
  {
    if polls == [] || polls[0].signedFlag then WatchEnd(0, current, None)
    else match Scan(polls[0].roots)
      case Err(e) => WatchEnd(0, current, Some(e))
      case Ok(s) =>
        var rest := Watch(polls[1..], s);
        rest.(scans := rest.scans + 1)
  }

  /**
   * The flag is only tested at the top of the loop: every completed scan
   * started on a poll that saw `signed` false, and the watcher stops only
   * on a `signed` poll, a failed scan, or the end of the observations. Each
   * scan overwrites: what is left published is the last completed scan's
   * snapshot, or the starting one when no scan completed.
   */
  lemma {:induction false} WatchSpec(polls: seq<Poll>, current: Snapshot)
    ensures Watch(polls, current).scans <= |polls|
    ensures forall k :: 0 <= k < Watch(polls, current).scans ==> !polls[k].signedFlag
    ensures var w := Watch(polls, current);
      w.failure.None? && w.scans < |polls| ==> polls[w.scans].signedFlag
    ensures var w := Watch(polls, current);
      w.failure.Some? ==> w.scans < |polls| && Scan(polls[w.scans].roots) == Err(w.failure.value)
    ensures var w := Watch(polls, current);
      if w.scans == 0 then w.published == current
      else Scan(polls[w.scans - 1].roots) == Ok(w.published)
  {
    if polls != [] && !polls[0].signedFlag && Scan(polls[0].roots).Ok? {
      WatchSpec(polls[1..], Scan(polls[0].roots).value);
    }
  }

  /** `run`: loops while `signed` is false, publishing each scan into the shared `Sign` object. */
  method Run(sign: Sign, polls: seq<Poll>) returns (end: WatchEnd)
    modifies sign
    ensures end == Watch(polls, old(Snapshot(sign.isPendriveRecognized, sign.keyPath)))
    ensures Snapshot(sign.isPendriveRecognized, sign.keyPath) == end.published
    ensures sign.pin == old(sign.pin) && sign.documentPath == old(sign.documentPath)
  {
    ghost var start := Snapshot(sign.isPendriveRecognized, sign.keyPath);
    var k := 0;
    while k < |polls| && !polls[k].signedFlag
      invariant 0 <= k <= |polls|
      invariant var w := Watch(polls[k..], Snapshot(sign.isPendriveRecognized, sign.keyPath));
        Watch(polls, start) == w.(scans := w.scans + k)
      invariant sign.pin == old(sign.pin) && sign.documentPath == old(sign.documentPath)
    {
      var r := ScanOnce(polls[k].roots);
      if r.Err? {
        return WatchEnd(k, Snapshot(sign.isPendriveRecognized, sign.keyPath), Some(r.error));
      }
      sign.SetPendriveRecognized(r.value.recognized);
      sign.SetKeyPath(r.value.keyPath);
      assert polls[k..][1..] == polls[k + 1..];
      k := k + 1;
    }
    end := WatchEnd(k, Snapshot(sign.isPendriveRecognized, sign.keyPath), None);
  }
}
