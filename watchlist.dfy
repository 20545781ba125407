/**
 * The shrink watch list as a value: the list of database file paths that
 * the background passes compact and prune, the operations on it, and one
 * pass of each background loop against a fixed view of the filesystem.
 */
module WatchList {
  import opened GoStrings

  /** No path occurs twice. */
  predicate Distinct(s: seq<string>)
  {
    forall i, j :: 0 <= i < j < |s| ==> s[i] != s[j]
  }

  /** The three SQLite side-car files that are never treated as databases. */
  const JournalSuffix: string := ".sqlite-journal"
  const SharedMemorySuffix: string := ".sqlite-shm"
  const WalSuffix: string := ".sqlite-wal"

  /**
   * `isFileSQLiteDB`: a non-empty path that is not a side-car file, ignoring
   * letter case. The empty path is rejected and any path whose lower-cased
   * text ends in ".db" is accepted.
   */
  predicate IsFileSQLiteDB(p: string): (r: bool)
    ensures p == "" ==> !r
    ensures EndsWith(ToLower(p), ".db") ==> r
  {
    var f := ToLower(p);
    assert EndsWith(f, ".db") ==> f[|f| - 1] == 'b';
    !(f == "" || EndsWith(f, JournalSuffix) || EndsWith(f, SharedMemorySuffix) || EndsWith(f, WalSuffix))
  }

  /** A side-car file is rejected whatever the letter case of its suffix. */
  lemma SideCarRejected(base: string, suffix: string)
    requires ToLower(suffix) == JournalSuffix || ToLower(suffix) == SharedMemorySuffix || ToLower(suffix) == WalSuffix
    ensures !IsFileSQLiteDB(base + suffix)
  {
    ToLowerConcat(base, suffix);
    var f := ToLower(base + suffix);
    assert f[|f| - |suffix|..] == ToLower(suffix);
  }

  /**
   * The converse: a non-empty path none of whose endings lower-cases to a
   * side-car suffix is accepted.
   */
  lemma NonSideCarAccepted(p: string)
    requires p != ""
    requires forall k :: 0 <= k <= |p| ==>
      ToLower(p[k..]) != JournalSuffix && ToLower(p[k..]) != SharedMemorySuffix && ToLower(p[k..]) != WalSuffix
    ensures IsFileSQLiteDB(p)
  {
    var f := ToLower(p);
    forall k | 0 <= k <= |p|
      ensures f[k..] == ToLower(p[k..])
    {
      assert forall j :: 0 <= j < |p| - k ==> f[k..][j] == ToLower(p[k..])[j];
    }
  }

  /**
   * `removeItemFromShrinkWatchList` on a value: the last entry takes the
   * place of entry `i` and the list is one shorter; an index past the end
   * leaves the list alone.
   */
  function SwapRemove(s: seq<string>, i: nat): (r: seq<string>)
    ensures i >= |s| ==> r == s
    ensures i < |s| ==> |r| == |s| - 1
    ensures i < |r| ==> r[i] == s[|s| - 1]
    ensures forall j :: 0 <= j < |r| && j != i ==> r[j] == s[j]
  {
    if i >= |s| then s else s[i := s[|s| - 1]][..|s| - 1]
  }

  /** Exactly the entry at `i` is lost. */
  lemma SwapRemoveMultiset(s: seq<string>, i: nat)
    requires i < |s|
    ensures multiset(SwapRemove(s, i)) == multiset(s) - multiset{s[i]}
  {
    var r := SwapRemove(s, i);
    var last := |s| - 1;
    if i == last {
      assert s == r + [s[i]];
      assert multiset(s) == multiset(r) + multiset{s[i]};
    } else {
      var a, x, b, y := s[..i], s[i], s[i + 1..last], s[last];
      assert s == a + [x] + b + [y];
      assert r == a + [y] + b;
      MovedLastMultiset(a, x, b, y);
    }
  }

  /** Moving the last entry into the place of `x` loses one `x` and nothing else. */
  lemma MovedLastMultiset(a: seq<string>, x: string, b: seq<string>, y: string)
    ensures multiset(a + [y] + b) == multiset(a + [x] + b + [y]) - multiset{x}
  {
    assert multiset(a + [x] + b + [y]) == multiset(a) + multiset{x} + multiset(b) + multiset{y};
    assert multiset(a + [y] + b) == multiset(a) + multiset{y} + multiset(b);
  }

  /** A list without duplicates keeps none, and the removed path is gone. */
  lemma SwapRemoveDistinct(s: seq<string>, i: nat)
    requires Distinct(s)
    ensures Distinct(SwapRemove(s, i))
    ensures i < |s| ==> s[i] !in SwapRemove(s, i)
  {
    var r := SwapRemove(s, i);
    if i < |s| {
      forall j, k | 0 <= j < k < |r|
        ensures r[j] != r[k]
      {
        var sj := if j == i then |s| - 1 else j;
        var sk := if k == i then |s| - 1 else k;
        assert r[j] == s[sj] && r[k] == s[sk] && sj != sk;
      }
      forall j | 0 <= j < |r|
        ensures r[j] != s[i]
      {
        if j == i {
          assert r[j] == s[|s| - 1];
        } else {
          assert r[j] == s[j];
        }
      }
    }
  }

  /** Removal never adds a path, and never introduces a duplicate. */
  lemma SwapRemoveKeeps(s: seq<string>, i: nat)
    ensures multiset(SwapRemove(s, i)) <= multiset(s)
    ensures Distinct(s) ==> Distinct(SwapRemove(s, i))
  {
    if i < |s| {
      SwapRemoveMultiset(s, i);
    }
    if Distinct(s) {
      SwapRemoveDistinct(s, i);
    }
  }

  /**
   * `AddDBFileToShrinkWatchList` on a value: a path already listed, or one
   * that is not a database file, leaves the list alone; any other path is
   * appended.
   */
  function Registered(list: seq<string>, p: string): (r: seq<string>)
    ensures p in list ==> r == list
    ensures !IsFileSQLiteDB(p) ==> r == list
    ensures p !in list && IsFileSQLiteDB(p) ==> r == list + [p]
    ensures Distinct(list) ==> Distinct(r)
    ensures p in r <==> p in list || IsFileSQLiteDB(p)
    ensures forall q :: q in r <==> q in list || (q == p && IsFileSQLiteDB(p))
  {
    if p in list then list
    else if !IsFileSQLiteDB(p) then list
    else list + [p]
  }

  /** Registering the same path twice is the same as registering it once. */
  lemma RegisteredIdempotent(list: seq<string>, p: string)
    ensures Registered(Registered(list, p), p) == Registered(list, p)
  {
  }

  /**
   * The filesystem as one pass sees it: whether `os.Stat` reports the path
   * as missing, whether it succeeds, and the time since the last
   * modification in nanoseconds. It stays fixed for the whole pass.
   */
  datatype FileOracle = FileOracle(present: string -> bool, statOk: string -> bool, ageNanos: string -> int)

  /** `fileOrDirExists` and `DatabaseExists`: the empty path never exists. */
  predicate PathExists(fs: FileOracle, p: string)
  {
    p != "" && fs.present(p)
  }

  /** 1.25 hours in nanoseconds. */
  const RecentNanos: int := 4_500_000_000_000

  /** The maintenance pass drops a path that is missing, cannot be examined, or changed recently. */
  predicate MaintEvicts(fs: FileOracle, p: string)
  {
    !PathExists(fs, p) || !fs.statOk(p) || fs.ageNanos(p) < RecentNanos
  }

  /** Index of the first entry on which the pass stops, or the length when none does. */
  function FirstWhere(list: seq<string>, stop: string -> bool): (k: nat)
    ensures k <= |list|
    ensures forall j :: 0 <= j < k ==> !stop(list[j])
    ensures k < |list| ==> stop(list[k])
  {
    if list == [] then 0
    else if stop(list[0]) then 0
    else 1 + FirstWhere(list[1..], stop)
  }

  /** An index with the characterising properties of `FirstWhere` is the one it returns. */
  lemma {:induction false} FirstWhereUnique(list: seq<string>, stop: string -> bool, k: nat)
    requires k <= |list|
    requires forall j :: 0 <= j < k ==> !stop(list[j])
    requires k < |list| ==> stop(list[k])
    ensures FirstWhere(list, stop) == k
  {
    if k > 0 {
      FirstWhereUnique(list[1..], stop, k - 1);
    }
  }

  /** The compaction pass stops on a path whose file does not exist. */
  function MissingFile(fs: FileOracle): string -> bool
  {
    p => !PathExists(fs, p)
  }

  /** The maintenance pass stops on a path it evicts. */
  function Evictable(fs: FileOracle): string -> bool
  {
    p => MaintEvicts(fs, p)
  }

  /** What one pass does: the paths handed to `ShrinkDB`, in order, and the list afterwards. */
  datatype PassResult = PassResult(compacted: seq<string>, list: seq<string>)

  /**
   * One pass of `shrinkAllDB`: every entry is compacted in list order until
   * the first one whose file is missing; that one is swap-removed and the
   * pass ends. There is no check of how long a file has been idle.
   */
  function Compaction(list: seq<string>, fs: FileOracle): (r: PassResult)
    ensures |r.compacted| <= |list| && r.compacted == list[..|r.compacted|]
    ensures forall p :: p in r.compacted ==> PathExists(fs, p)
    ensures |r.compacted| == |list| ==> r.list == list
    ensures (forall p :: p in list ==> PathExists(fs, p)) ==> r == PassResult(list, list)
    ensures |r.compacted| < |list| ==>
      !PathExists(fs, list[|r.compacted|]) && r.list == SwapRemove(list, |r.compacted|)
    ensures |list| - 1 <= |r.list| <= |list|
    ensures multiset(r.list) <= multiset(list)
    ensures Distinct(list) ==> Distinct(r.list)
  {
    var k := FirstWhere(list, MissingFile(fs));
    SwapRemoveKeeps(list, k);
    PassResult(list[..k], SwapRemove(list, k))
  }

  /**
   * One pass of `maintWatchList`: the first entry that is missing, cannot be
   * examined, or was modified less than 1.25 hours ago is swap-removed and
   * the pass ends.
   */
  function Maintenance(list: seq<string>, fs: FileOracle): (r: seq<string>)
    ensures |r| == |list| ==> r == list
    ensures |list| - 1 <= |r| <= |list|
    ensures multiset(r) <= multiset(list)
    ensures Distinct(list) ==> Distinct(r)
    ensures |r| == |list| ==> forall j :: 0 <= j < |list| ==> !MaintEvicts(fs, list[j])
    ensures |r| < |list| ==>
      exists k :: 0 <= k < |list| && r == SwapRemove(list, k) && MaintEvicts(fs, list[k]) &&
        (forall j :: 0 <= j < k ==> PathExists(fs, list[j]) && fs.statOk(list[j]) && fs.ageNanos(list[j]) >= RecentNanos)
  {
    var k := FirstWhere(list, Evictable(fs));
    SwapRemoveKeeps(list, k);
    SwapRemove(list, k)
  }

  /**
   * Registry ["a.db", "b.db"], "a.db" deleted, "b.db" modified 30 minutes
   * ago: the first compaction pass evicts "a.db" and compacts nothing; only
   * the next pass compacts "b.db". The maintenance pass evicts "a.db" too.
   */
  lemma EvictionEndsThePass()
    ensures var fs := FileOracle(p => p == "b.db", p => p == "b.db", p => 1_800_000_000_000);
      Compaction(["a.db", "b.db"], fs) == PassResult([], ["b.db"]) &&
      Compaction(["b.db"], fs) == PassResult(["b.db"], ["b.db"]) &&
      Maintenance(["a.db", "b.db"], fs) == ["b.db"]
  {
    var fs := FileOracle(p => p == "b.db", p => p == "b.db", p => 1_800_000_000_000);
    var list := ["a.db", "b.db"];
    assert !PathExists(fs, list[0]) && PathExists(fs, "b.db");
    FirstWhereUnique(list, MissingFile(fs), 0);
    FirstWhereUnique(list, Evictable(fs), 0);
    FirstWhereUnique(["b.db"], MissingFile(fs), 1);
    assert SwapRemove(list, 0) == ["b.db"];
  }

  /**
   * Registry ["idle.db", "busy.db"], both present, "idle.db" untouched for
   * two hours and "busy.db" modified 30 minutes ago: the maintenance pass
   * drops the file in active use and keeps the idle one.
   */
  lemma MaintenanceDropsActiveFiles()
    ensures var fs := FileOracle(p => true, p => true,
        p => if p == "busy.db" then 1_800_000_000_000 else 7_200_000_000_000);
      Maintenance(["idle.db", "busy.db"], fs) == ["idle.db"]
  {
    var fs := FileOracle(p => true, p => true,
      p => if p == "busy.db" then 1_800_000_000_000 else 7_200_000_000_000);
    var list := ["idle.db", "busy.db"];
    assert !MaintEvicts(fs, list[0]) && MaintEvicts(fs, list[1]);
    FirstWhereUnique(list, Evictable(fs), 1);
    assert SwapRemove(list, 1) == ["idle.db"];
  }

  /** The maintenance test with the age comparison the pass describes: drop what has been idle 1.25 hours or more. */
  predicate IntendedMaintEvicts(fs: FileOracle, p: string)
  {
    !PathExists(fs, p) || !fs.statOk(p) || fs.ageNanos(p) >= RecentNanos
  }

  function IntendedEvictable(fs: FileOracle): string -> bool
  {
    p => IntendedMaintEvicts(fs, p)
  }

  /** The only entry a swap-removal loses is the one at the index. */
  lemma SwapRemoveDrops(s: seq<string>, i: nat)
    ensures forall p :: multiset(SwapRemove(s, i))[p] < multiset(s)[p] ==> i < |s| && p == s[i]
  {
    if i < |s| {
      SwapRemoveMultiset(s, i);
    }
  }

  /** A maintenance pass that drops the first missing, unreadable or idle entry. */
  function IntendedMaintenance(list: seq<string>, fs: FileOracle): (r: seq<string>)
    ensures |list| - 1 <= |r| <= |list|
    ensures multiset(r) <= multiset(list)
    ensures Distinct(list) ==> Distinct(r)
    ensures |r| == |list| ==> r == list && forall j :: 0 <= j < |list| ==> !IntendedMaintEvicts(fs, list[j])
    ensures forall p :: multiset(r)[p] < multiset(list)[p] ==> IntendedMaintEvicts(fs, p)
  {
    var k := FirstWhere(list, IntendedEvictable(fs));
    SwapRemoveKeeps(list, k);
    SwapRemoveDrops(list, k);
    SwapRemove(list, k)
  }

  /** A file modified within the last 1.25 hours is never dropped by the intended pass. */
  lemma IntendedMaintenanceKeepsActiveFiles(list: seq<string>, fs: FileOracle, p: string)
    requires PathExists(fs, p) && fs.statOk(p) && fs.ageNanos(p) < RecentNanos
    ensures multiset(IntendedMaintenance(list, fs))[p] == multiset(list)[p]
  {
  }

  /** On the registry above, the intended pass keeps the busy file and drops the idle one. */
  lemma IntendedMaintenanceDropsIdleFiles()
    ensures var fs := FileOracle(p => true, p => true,
        p => if p == "busy.db" then 1_800_000_000_000 else 7_200_000_000_000);
      IntendedMaintenance(["idle.db", "busy.db"], fs) == ["busy.db"]
  {
    var fs := FileOracle(p => true, p => true,
      p => if p == "busy.db" then 1_800_000_000_000 else 7_200_000_000_000);
    var list := ["idle.db", "busy.db"];
    assert IntendedMaintEvicts(fs, list[0]);
    FirstWhereUnique(list, IntendedEvictable(fs), 0);
    assert SwapRemove(list, 0) == ["busy.db"];
  }
}
