/**
 * folderStats (server/utils/folderStats.ts): file counts and sizes of the
 * cache folders, recomputed by a recursive walk and kept in a table that is
 * replaced in one step.
 */
module FolderStats {

  import opened Wrappers

  /**
   * What a directory walk finds at a path. A directory whose listing cannot be
   * read has `readable == false` (its `entries` are then never looked at); a
   * file that cannot be stat'ed has
   * `stat == None`; anything that is neither a file nor a directory (a
   * symbolic link, a socket, ...) is `Other`.
   */
  datatype Entry =
    | File(stat: Option<nat>)
    | Directory(readable: bool, entries: seq<Entry>)
    | Other

  /** The two accumulators of the walk: bytes seen and regular files seen. */
  datatype Tally = Tally(size: nat, fileCount: nat)

  /** Where a walk stopped: its accumulators, and whether it ran to the end. */
  datatype Walked = Walked(tally: Tally, ok: bool)

  /** A row of the statistics table. */
  datatype FolderStats = FolderStats(sizeKB: int, fileCount: nat)

  /** The folders under `./cache` whose statistics are kept. */
  const Folders: seq<string> := [
    "characters", "oldcharacters", "corporations", "alliances",
    "types", "systems", "regions", "constellations"
  ]

  // ---------------------------------------------------------------------
  // The walk, as a specification

  /**
   * `walk(dir)` from the accumulators `t`: reading the listing is the first
   * thing it does, and the walk stops (keeping what it has added so far) as
   * soon as anything it does fails.
   */
  function WalkDir(dir: Entry, t: Tally): Walked
  {
    if dir.Directory? then WalkEntry(dir, t) else Walked(t, false)
  }

  /** The loop of `walk` over the first |entries| entries of a listing. */
  function WalkEntries(entries: seq<Entry>, t: Tally): Walked
  {
    if entries == [] then Walked(t, true)
    else
      var before := WalkEntries(entries[..|entries| - 1], t);
      if !before.ok then before else WalkEntry(entries[|entries| - 1], before.tally)
  }

  /** One entry of a listing: recurse into a directory, stat a file, skip the rest. */
  function WalkEntry(e: Entry, t: Tally): Walked
  {
    match e
    case Directory(readable, entries) => if readable then WalkEntries(entries, t) else Walked(t, false)
    case File(None) => Walked(t, false)
    case File(Some(bytes)) => Walked(Tally(t.size + bytes, t.fileCount + 1), true)
    case Other => Walked(t, true)
  }

  // ---------------------------------------------------------------------
  // Reference definitions: what the walk adds up when nothing fails

  /** Nothing under `e` fails to be read. */
  predicate Readable(e: Entry) {
    match e
    case File(s) => s.Some?
    case Directory(readable, es) => readable && AllReadable(es)
    case Other => true
  }

  predicate AllReadable(es: seq<Entry>) {
    forall i :: 0 <= i < |es| ==> Readable(es[i])
  }

  /** The number of regular files under `e`, subdirectories included. */
  function FileCount(e: Entry): nat {
    match e
    case File(_) => 1
    case Directory(readable, es) => if readable then FileCountAll(es) else 0
    case Other => 0
  }

  function FileCountAll(es: seq<Entry>): nat {
    if es == [] then 0 else FileCountAll(es[..|es| - 1]) + FileCount(es[|es| - 1])
  }

  /** The bytes of the regular files under `e` (files that cannot be stat'ed add nothing). */
  function TotalSize(e: Entry): nat {
    match e
    case File(s) => s.GetOr(0)
    case Directory(readable, es) => if readable then TotalSizeAll(es) else 0
    case Other => 0
  }

  function TotalSizeAll(es: seq<Entry>): nat {
    if es == [] then 0 else TotalSizeAll(es[..|es| - 1]) + TotalSize(es[|es| - 1])
  }

  function Add(t: Tally, size: nat, fileCount: nat): Tally {
    Tally(t.size + size, t.fileCount + fileCount)
  }

  /**
   * A walk over a tree in which everything can be read visits every regular
   * file once: it adds exactly their number and their bytes.
   */
  lemma {:induction false} WalkCountsEveryFile(e: Entry, t: Tally)
    requires Readable(e)
    ensures WalkEntry(e, t) == Walked(Add(t, TotalSize(e), FileCount(e)), true)
    decreases e, 1
  {
    match e
    case File(_) =>
    case Other =>
    case Directory(_, es) => WalkEntriesCountEveryFile(es, t);
  }

  lemma {:induction false} WalkEntriesCountEveryFile(es: seq<Entry>, t: Tally)
    requires AllReadable(es)
    ensures WalkEntries(es, t) == Walked(Add(t, TotalSizeAll(es), FileCountAll(es)), true)
    decreases es, 0
  {
    if es != [] {
      var init := es[..|es| - 1];
      assert AllReadable(init) by {
        forall i | 0 <= i < |init| ensures Readable(init[i]) { assert init[i] == es[i]; }
      }
      WalkEntriesCountEveryFile(init, t);
      WalkCountsEveryFile(es[|es| - 1], Add(t, TotalSizeAll(init), FileCountAll(init)));
    }
  }

  /** Once a walk has failed, the entries after the failure change nothing. */
  lemma {:induction false} FailureIsFinal(es: seq<Entry>, k: nat, t: Tally)
    requires k <= |es|
    requires !WalkEntries(es[..k], t).ok
    ensures WalkEntries(es, t) == WalkEntries(es[..k], t)
    decreases |es| - k
  {
    if k < |es| {
      assert es[..k + 1][..k] == es[..k];
      FailureIsFinal(es, k + 1, t);
    } else {
      assert es[..k] == es;
    }
  }

  /** The walk only ever adds to its accumulators. */
  lemma {:induction false} WalkEntryOnlyAdds(e: Entry, t: Tally)
    ensures WalkEntry(e, t).tally.size >= t.size && WalkEntry(e, t).tally.fileCount >= t.fileCount
    decreases e, 1
  {
    match e
    case File(_) =>
    case Other =>
    case Directory(readable, es) => if readable { WalkEntriesOnlyAdds(es, t); }
  }

  lemma {:induction false} WalkEntriesOnlyAdds(es: seq<Entry>, t: Tally)
    ensures WalkEntries(es, t).tally.size >= t.size && WalkEntries(es, t).tally.fileCount >= t.fileCount
    decreases es, 0
  {
    if es != [] {
      var init := es[..|es| - 1];
      WalkEntriesOnlyAdds(init, t);
      var before := WalkEntries(init, t);
      if before.ok {
        WalkEntryOnlyAdds(es[|es| - 1], before.tally);
      }
    }
  }

  /**
   * A walk stops at the first entry that fails, whatever it is (a file that
   * cannot be stat'ed, a directory that cannot be listed, or a failure deeper
   * down): it ends where that entry's walk ends, which keeps everything the
   * readable entries before it added.
   */
  lemma WalkStopsAtFailure(before: seq<Entry>, bad: Entry, after: seq<Entry>, t: Tally)
    requires AllReadable(before)
    requires !WalkEntry(bad, Add(t, TotalSizeAll(before), FileCountAll(before))).ok
    ensures var w := WalkEntries(before + [bad] + after, t);
      && w == WalkEntry(bad, Add(t, TotalSizeAll(before), FileCountAll(before)))
      && w.tally.size >= t.size + TotalSizeAll(before)
      && w.tally.fileCount >= t.fileCount + FileCountAll(before)
  {
    var es := before + [bad] + after;
    var k := |before| + 1;
    assert es[..k][..|before|] == before;
    assert es[..k][k - 1] == bad;
    WalkEntriesCountEveryFile(before, t);
    FailureIsFinal(es, k, t);
    WalkEntryOnlyAdds(bad, Add(t, TotalSizeAll(before), FileCountAll(before)));
  }

  /**
   * A failing `stat` part-way keeps what was added before it: when the entries
   * before it are all readable, the walk ends with exactly their files and
   * bytes, not with zeros.
   */
  lemma FailureKeepsPartialSums(before: seq<Entry>, after: seq<Entry>, t: Tally)
    requires AllReadable(before)
    ensures WalkEntries(before + [File(None)] + after, t)
         == Walked(Add(t, TotalSizeAll(before), FileCountAll(before)), false)
  {
    WalkStopsAtFailure(before, File(None), after, t);
  }

  // ---------------------------------------------------------------------
  // Rounding to kilobytes

  /** `Math.round`: the nearest integer, halves rounded up. */
  function Round(x: real): int {
    (x + 0.5).Floor
  }

  /** `Math.round(size / 1024)`. */
  function SizeKB(size: nat): int {
    Round(size as real / 1024.0)
  }

  /** For a byte count, rounding to kilobytes is integer division after adding half a kilobyte. */
  lemma SizeKBIsHalfUp(size: nat)
    ensures SizeKB(size) == (size + 512) / 1024
  {
    var k := (size + 512) / 1024;
    var x := size as real / 1024.0 + 0.5;
    assert x == (size + 512) as real / 1024.0;
    assert k * 1024 <= size + 512 < (k + 1) * 1024;
    assert k as real <= x < (k + 1) as real;
  }

  /** `getFolderStats(dir)`: the walk from zero, rounded; a failed walk keeps its partial sums. */
  function StatsOf(root: Entry): FolderStats {
    var w := WalkDir(root, Tally(0, 0));
    FolderStats(SizeKB(w.tally.size), w.tally.fileCount)
  }

  /** A folder that is missing (or cannot be listed) has no files and no bytes. */
  lemma MissingFolderIsEmpty()
    ensures StatsOf(Directory(false, [])) == FolderStats(0, 0)
  {
    SizeKBIsHalfUp(0);
  }

  /** When everything under the folder can be read, the statistics count every file. */
  lemma StatsOfReadableFolder(root: Entry)
    requires root.Directory? && Readable(root)
    ensures StatsOf(root) == FolderStats((TotalSize(root) + 512) / 1024, FileCount(root))
  {
    WalkCountsEveryFile(root, Tally(0, 0));
    SizeKBIsHalfUp(TotalSize(root));
  }

  // ---------------------------------------------------------------------
  // The walk, as the program runs it

  /**
   * `walk(currentDir)` with the enclosing function's accumulators passed in
   * and out; `ok` is false when the walk threw.
   */
  method Walk(currentDir: Entry, size0: nat, fileCount0: nat) returns (size: nat, fileCount: nat, ok: bool)
    ensures WalkDir(currentDir, Tally(size0, fileCount0)) == Walked(Tally(size, fileCount), ok)
    decreases currentDir
  {
    size, fileCount := size0, fileCount0;
    if !(currentDir.Directory? && currentDir.readable) {
      return size, fileCount, false;
    }
    var entries := currentDir.entries;
    var i := 0;
    while i < |entries|
      invariant i <= |entries|
      invariant WalkEntries(entries[..i], Tally(size0, fileCount0)) == Walked(Tally(size, fileCount), true)
    {
      var entry := entries[i];
      assert entries[..i + 1][..i] == entries[..i];
      match entry {
        case Directory(_, _) =>
          var entryOk;
          size, fileCount, entryOk := Walk(entry, size, fileCount);
          if !entryOk {
            FailureIsFinal(entries, i + 1, Tally(size0, fileCount0));
            assert entries[..|entries|] == entries;
            return size, fileCount, false;
          }
        case File(stat) =>
          if stat.None? {
            FailureIsFinal(entries, i + 1, Tally(size0, fileCount0));
            return size, fileCount, false;
          }
          size := size + stat.value;
          fileCount := fileCount + 1;
        case Other =>
      }
      i := i + 1;
    }
    assert entries[..i] == entries;
    ok := true;
  }

  /** `getFolderStats(dir)`: an error anywhere in the walk is swallowed. */
  method GetFolderStats(dir: Entry) returns (stats: FolderStats)
    ensures stats == StatsOf(dir)
  {
    var size, fileCount, _ := Walk(dir, 0, 0);
    stats := FolderStats(SizeKB(size), fileCount);
  }

  /** The folder found at `./cache/{folder}`: a missing path cannot be listed. */
  function FolderAt(disk: map<string, Entry>, folder: string): Entry {
    if folder in disk then disk[folder] else Directory(false, [])
  }

  /** The table a complete recalculation produces. */
  function StatsTable(disk: map<string, Entry>): (table: map<string, FolderStats>)
    ensures forall f :: f in table <==> f in Folders
    ensures forall f :: f in Folders && f !in disk ==> table[f] == FolderStats(0, 0)
  {
    forall f | f in Folders && f !in disk ensures StatsOf(FolderAt(disk, f)) == FolderStats(0, 0) {
      MissingFolderIsEmpty();
    }
    map f | f in Folders :: StatsOf(FolderAt(disk, f))
  }

  /** The module's state: the last complete table and the in-flight flag. */
  class StatsCache {
    var cachedStats: map<string, FolderStats>
    var isCalculating: bool

    /** Every folder starts at zero files and zero kilobytes, with no calculation running. */
    constructor ()
      ensures cachedStats == map f | f in Folders :: FolderStats(0, 0)
      ensures !isCalculating
    {
      cachedStats := map f | f in Folders :: FolderStats(0, 0);
      isCalculating := false;
    }

    /**
     * `calculateAllFolderStats()`: skipped while another run is in flight;
     * otherwise every folder is walked into a new table, which then replaces
     * the old one in a single assignment, and the flag is cleared again.
     */
    method CalculateAllFolderStats(disk: map<string, Entry>)
      modifies this
      ensures old(isCalculating) ==> cachedStats == old(cachedStats) && isCalculating
      ensures !old(isCalculating) ==> cachedStats == StatsTable(disk) && !isCalculating
    {
      if isCalculating {
        return;
      }
      isCalculating := true;
      var newStats: map<string, FolderStats> := map[];
      for i := 0 to |Folders|
        invariant newStats == map f | f in Folders[..i] :: StatsOf(FolderAt(disk, f))
        invariant cachedStats == old(cachedStats)
      {
        var stats := GetFolderStats(FolderAt(disk, Folders[i]));
        newStats := newStats[Folders[i] := stats];
      }
      assert Folders[..|Folders|] == Folders;
      cachedStats := newStats;
      isCalculating := false;
    }

    /**
     * `getCurrentStats()`: a copy of the table. Tables are values here, so
     * nothing a caller does to the copy reaches `cachedStats`.
     */
    method GetCurrentStats() returns (r: map<string, FolderStats>)
      ensures r == cachedStats
    {
      r := cachedStats;
    }
  }
}
