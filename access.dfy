/**
 * `DBAccess`, the object a caller creates once: its connection settings,
 * its PRAGMA list, and the shrink watch list that the two background
 * passes work on. Each pass is one sequential sweep over the list.
 */
module Access {
  import opened GoStrings
  import opened Pragmas
  import opened WatchList

  /** The fields of a `DBAccess` value, as handed to `NewDBAccess` and as it leaves it. */
  datatype Settings = Settings(
    driverName: string,
    maxIdleConns: nat,
    maxOpenConns: nat,
    pragma: seq<string>,
    shrinkDatabaseFiles: bool,
    shrinkWatchList: seq<string>)

  const DefaultDriver: string := "sqlite3"

  /** The text whose absence from a PRAGMA entry turns shrinking on. */
  const AutoVacuumKey: string := ToUpper("PRAGMA auto_vacuum")

  /** Some entry does not mention auto_vacuum, in any letter case. */
  ghost predicate SomeEntryLacksAutoVacuum(pragmas: seq<string>)
  {
    exists i :: 0 <= i < |pragmas| && !Contains(ToUpper(pragmas[i]), AutoVacuumKey)
  }

  /**
   * What `NewDBAccess` makes of its argument: both connection limits
   * raised to at least 1, the default PRAGMA list when none is given, the
   * "sqlite3" driver when none is named, the PRAGMA list repaired and
   * reordered, and shrinking switched on when some repaired entry does not
   * set auto_vacuum.
   */
  ghost function Configured(s: Settings): (c: Settings)
    ensures c.maxIdleConns >= 1 && c.maxOpenConns >= 1
    ensures s.maxIdleConns >= 1 ==> c.maxIdleConns == s.maxIdleConns
    ensures s.maxOpenConns >= 1 ==> c.maxOpenConns == s.maxOpenConns
    ensures s.maxIdleConns < 1 ==> c.maxIdleConns == 1
    ensures s.maxOpenConns < 1 ==> c.maxOpenConns == 1
    ensures c.driverName != ""
    ensures s.driverName == "" ==> c.driverName == DefaultDriver
    ensures s.driverName != "" ==> c.driverName == s.driverName
    ensures forall i :: 0 <= i < |c.pragma| ==> WellFormedPragma(c.pragma[i])
    ensures s.shrinkDatabaseFiles ==> c.shrinkDatabaseFiles
    ensures c.shrinkWatchList == s.shrinkWatchList
  {
    var given := if s.pragma == [] then DefaultPragmas else s.pragma;
    var fixed := FixedPragmas(given);
    FixedPragmasWellFormed(given);
    Settings(
      if s.driverName == "" then DefaultDriver else s.driverName,
      if s.maxIdleConns < 1 then 1 else s.maxIdleConns,
      if s.maxOpenConns < 1 then 1 else s.maxOpenConns,
      fixed,
      s.shrinkDatabaseFiles || SomeEntryLacksAutoVacuum(fixed),
      s.shrinkWatchList)
  }

  /** An empty PRAGMA list is replaced by the three defaults before the repair. */
  lemma ConfiguredDefaultPragmas(s: Settings)
    ensures s.pragma == [] ==> Configured(s).pragma == FixedPragmas(DefaultPragmas)
    ensures s.pragma != [] ==> Configured(s).pragma == FixedPragmas(s.pragma)
  {
  }

  /** Shrinking is on exactly when it was asked for or some repaired entry lacks auto_vacuum. */
  lemma ConfiguredShrinking(s: Settings)
    ensures Configured(s).shrinkDatabaseFiles <==>
      s.shrinkDatabaseFiles || SomeEntryLacksAutoVacuum(Configured(s).pragma)
  {
  }

  /**
   * The loop at the end of `NewDBAccess`: shrinking is switched on at the
   * first entry that does not mention auto_vacuum, and never off.
   */
  method DecideShrinking(pragmas: seq<string>, shrink: bool) returns (r: bool)
    ensures r <==> shrink || SomeEntryLacksAutoVacuum(pragmas)
  {
    r := shrink;
    var i := 0;
    while i < |pragmas|
      invariant 0 <= i <= |pragmas|
      invariant r == shrink
      invariant forall j :: 0 <= j < i ==> Contains(ToUpper(pragmas[j]), AutoVacuumKey)
    {
      if !Contains(ToUpper(pragmas[i]), AutoVacuumKey) {
        r := true;
        break;
      }
      i := i + 1;
    }
  }

  class DBAccess {
    var driverName: string
    var maxIdleConns: nat
    var maxOpenConns: nat
    var pragma: seq<string>
    var shrinkDatabaseFiles: bool
    /** Database file paths to compact in the background. */
    var shrinkWatchList: seq<string>

    /** The fields as a value. */
    function Snapshot(): Settings
      reads this
    {
      Settings(driverName, maxIdleConns, maxOpenConns, pragma, shrinkDatabaseFiles, shrinkWatchList)
    }

    /** `NewDBAccess`, without starting the background passes. */
    constructor (s: Settings)
      ensures Snapshot() == Configured(s)
    {
      var idle := s.maxIdleConns;
      if idle < 1 {
        idle := 1;
      }
      var open := s.maxOpenConns;
      if open < 1 {
        open := 1;
      }
      var prag := s.pragma;
      if |prag| == 0 {
        prag := prag + ["PRAGMA auto_vacuum = NONE;"];
        prag := prag + ["PRAGMA journal_mode = WAL;"];
        prag := prag + ["PRAGMA wal_checkpoint(PASSIVE);"];
      }
      assert prag == if s.pragma == [] then DefaultPragmas else s.pragma;
      var driver := s.driverName;
      if driver == "" {
        driver := DefaultDriver;
      }
      var given := prag;
      var entries := new string[|given|](i requires 0 <= i < |given| => given[i]);
      assert entries[..] == given;
      prag := FixPragmaTextAndOrder(entries);
      var shrink := DecideShrinking(prag, s.shrinkDatabaseFiles);
      driverName := driver;
      maxIdleConns := idle;
      maxOpenConns := open;
      pragma := prag;
      shrinkDatabaseFiles := shrink;
      shrinkWatchList := s.shrinkWatchList;
    }

    /** `itemExists`: whether the path is on the watch list. */
    method ItemExists(dbFilePath: string) returns (found: bool)
      ensures found <==> dbFilePath in shrinkWatchList
    {
      var i := 0;
      while i < |shrinkWatchList|
        invariant 0 <= i <= |shrinkWatchList|
        invariant dbFilePath !in shrinkWatchList[..i]
      {
        if shrinkWatchList[i] == dbFilePath {
          return true;
        }
        i := i + 1;
      }
      return false;
    }

    /**
     * `removeItemFromShrinkWatchList`: the entry at `i` trades places with
     * the last one, which is then cut off. An index past the end is ignored.
     */
    method RemoveItemFromShrinkWatchList(i: nat)
      modifies this`shrinkWatchList
      ensures shrinkWatchList == SwapRemove(old(shrinkWatchList), i)
      ensures Distinct(old(shrinkWatchList)) ==> Distinct(shrinkWatchList)
    {
      SwapRemoveKeeps(shrinkWatchList, i);
      var n := |shrinkWatchList|;
      if n == 0 || i >= n {
        return;
      }
      if n > 1 {
        shrinkWatchList := shrinkWatchList[n - 1 := shrinkWatchList[i]][i := shrinkWatchList[n - 1]];
      }
      shrinkWatchList := shrinkWatchList[..n - 1];
    }

    /** `AddDBFileToShrinkWatchList`: appends a database file path not yet listed. */
    method AddDBFileToShrinkWatchList(dbFilePath: string)
      modifies this`shrinkWatchList
      ensures shrinkWatchList == Registered(old(shrinkWatchList), dbFilePath)
      ensures Distinct(old(shrinkWatchList)) ==> Distinct(shrinkWatchList)
    {
      var listed := ItemExists(dbFilePath);
      if listed {
        return;
      }
      if !IsFileSQLiteDB(dbFilePath) {
        return;
      }
      shrinkWatchList := shrinkWatchList + [dbFilePath];
    }

    /** `GetShrinkWatchList`. */
    method GetShrinkWatchList() returns (list: seq<string>)
      ensures list == shrinkWatchList
    {
      return shrinkWatchList;
    }

    /**
     * One sweep of `shrinkAllDB`: returns the paths handed to `ShrinkDB`, in
     * order, and leaves the list as `Compaction` says.
     */
    method CompactionPass(fs: FileOracle) returns (compacted: seq<string>)
      modifies this`shrinkWatchList
      ensures PassResult(compacted, shrinkWatchList) == Compaction(old(shrinkWatchList), fs)
    {
      ghost var list := shrinkWatchList;
      compacted := [];
      var i := 0;
      while i < |shrinkWatchList|
        invariant 0 <= i <= |shrinkWatchList|
        invariant shrinkWatchList == list
        invariant compacted == list[..i]
        invariant forall j :: 0 <= j < i ==> !MissingFile(fs)(list[j])
      {
        if !PathExists(fs, shrinkWatchList[i]) {
          FirstWhereUnique(list, MissingFile(fs), i);
          RemoveItemFromShrinkWatchList(i);
          return;
        }
        compacted := compacted + [shrinkWatchList[i]];
        i := i + 1;
      }
      FirstWhereUnique(list, MissingFile(fs), i);
      assert list[..i] == list;
    }

    /** One sweep of `maintWatchList`: the list afterwards is the one `Maintenance` gives. */
    method MaintenancePass(fs: FileOracle)
      modifies this`shrinkWatchList
      ensures shrinkWatchList == Maintenance(old(shrinkWatchList), fs)
    {
      ghost var list := shrinkWatchList;
      var i := 0;
      while i < |shrinkWatchList|
        invariant 0 <= i <= |shrinkWatchList|
        invariant shrinkWatchList == list
        invariant forall j :: 0 <= j < i ==> !Evictable(fs)(list[j])
      {
        if !PathExists(fs, shrinkWatchList[i]) {
          FirstWhereUnique(list, Evictable(fs), i);
          RemoveItemFromShrinkWatchList(i);
          return;
        }
        if !fs.statOk(shrinkWatchList[i]) {
          FirstWhereUnique(list, Evictable(fs), i);
          RemoveItemFromShrinkWatchList(i);
          return;
        }
        if fs.ageNanos(shrinkWatchList[i]) < RecentNanos {
          FirstWhereUnique(list, Evictable(fs), i);
          RemoveItemFromShrinkWatchList(i);
          return;
        }
        i := i + 1;
      }
      FirstWhereUnique(list, Evictable(fs), i);
    }
  }
}
