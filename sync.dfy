/** The startup sync of InitDB: walk the storage tree and catalog every
    playlist document found, unless its title is already cataloged. */
module Sync {
  import opened Paths
  import opened Naming
  import opened Catalog

  /** One visit of filepath.Walk: the visited path and its base name
      (os.FileInfo.Name), or the error the walk reports for that entry. */
  datatype WalkEntry = Visit(path: string, name: string) | WalkError

  /** The walk keeps only files whose extension is exactly ".m3u8": the
      paths ending in ".m3u8". */
  function IsPlaylist(path: string): (b: bool)
    ensures b <==> HasSuffix(path, PlaylistExt)
  {
    ExtIsM3u8Iff(path);
    Ext(path) == PlaylistExt
  }

  /** The effect of one visit on the rows; `fails` says whether the
      database rejects the insert this visit would make. */
  function SyncStep(rows: seq<Row>, e: WalkEntry, fails: bool): (r: seq<Row>)
    ensures rows <= r
  {
    match e
    case Visit(path, name) =>
      if IsPlaylist(path) then GuardedInsert(rows, Title(name), ToSlash(path), fails) else rows
    case WalkError => rows
  }

  /** The rows after visiting every entry in order; the insert of entry i
      fails when i is in `faults`. */
  function SyncRows(rows: seq<Row>, entries: seq<WalkEntry>, faults: set<nat>): (r: seq<Row>)
    ensures rows <= r
    decreases |entries|
  {
    if entries == [] then rows
    else
      var last := |entries| - 1;
      SyncStep(SyncRows(rows, entries[..last], faults), entries[last], last in faults)
  }

  /** How far the walk gets: the index of the first walk error, or the
      number of entries when there is none. */
  function WalkEnd(entries: seq<WalkEntry>): (n: nat)
    ensures n <= |entries|
    ensures forall k :: 0 <= k < n ==> entries[k].Visit?
    ensures n < |entries| ==> entries[n].WalkError?
    decreases |entries|
  {
    if entries == [] || entries[0].WalkError? then 0 else 1 + WalkEnd(entries[1..])
  }

  /** The row entry i of the walk would add, if it were inserted. */
  predicate Discovered(entries: seq<WalkEntry>, i: nat, row: Row)
  {
    && i < |entries|
    && entries[i].Visit?
    && IsPlaylist(entries[i].path)
    && row == Row(Title(entries[i].name), ToSlash(entries[i].path))
  }

  /** The callback InitDB hands to filepath.Walk: pass a walk error on, and
      otherwise catalog a ".m3u8" file under its title unless that title is
      already cataloged. */
  method VisitEntry(store: Store, e: WalkEntry, fails: bool) returns (walkError: bool)
    requires store.Valid()
    modifies store
    ensures store.Valid()
    ensures walkError <==> e.WalkError?
    ensures store.rows == SyncStep(old(store.rows), e, fails)
  {
    match e
    case WalkError =>
      walkError := true;
    case Visit(path, name) =>
      walkError := false;
      if IsPlaylist(path) {
        var outcome := store.InsertUnlessExists(Title(name), ToSlash(path), fails);
      }
  }

  /** InitDB's walk. A walk error stops the walk at that entry and the sync
      reports failure (the service then refuses to start); the rows inserted
      before it stay. A failed insert is only reported and the walk goes on. */
  method Run(store: Store, entries: seq<WalkEntry>, faults: set<nat>) returns (ok: bool)
    requires store.Valid()
    modifies store
    ensures store.Valid()
    ensures store.rows == SyncRows(old(store.rows), entries[..WalkEnd(entries)], faults)
    ensures ok <==> WalkEnd(entries) == |entries|
  {
    ghost var initial := store.rows;
    var i := 0;
    while i < |entries|
      invariant 0 <= i <= WalkEnd(entries)
      invariant store.Valid()
      invariant store.rows == SyncRows(initial, entries[..i], faults)
    {
      SyncRowsSnoc(initial, entries, faults, i);
      var walkError := VisitEntry(store, entries[i], i in faults);
      if walkError {
        return false;
      }
      i := i + 1;
    }
    assert entries[..i] == entries;
    ok := true;
  }

  /** Visiting one more entry is one more step of the fold. */
  lemma SyncRowsSnoc(rows: seq<Row>, entries: seq<WalkEntry>, faults: set<nat>, i: nat)
    requires i < |entries|
    ensures SyncRows(rows, entries[..i + 1], faults) == SyncStep(SyncRows(rows, entries[..i], faults), entries[i], i in faults)
  {
    assert entries[..i + 1][..i] == entries[..i];
  }

  /** The sync keeps titles unique. */
  lemma {:induction false} SyncKeepsUnique(rows: seq<Row>, entries: seq<WalkEntry>, faults: set<nat>)
    requires UniqueTitles(rows)
    ensures UniqueTitles(SyncRows(rows, entries, faults))
    decreases |entries|
  {
    if entries != [] {
      var last := |entries| - 1;
      var before := SyncRows(rows, entries[..last], faults);
      SyncKeepsUnique(rows, entries[..last], faults);
      match entries[last]
      case Visit(path, name) =>
        GuardedInsertKeepsUnique(before, Title(name), ToSlash(path), last in faults);
      case WalkError =>
    }
  }

  /** Every row the sync adds was discovered by the walk: the sync catalogs
      playlist documents and nothing else. */
  lemma {:induction false} SyncAddsOnlyDiscovered(rows: seq<Row>, entries: seq<WalkEntry>, faults: set<nat>, k: nat)
    requires |rows| <= k < |SyncRows(rows, entries, faults)|
    ensures exists i :: Discovered(entries, i, SyncRows(rows, entries, faults)[k])
    decreases |entries|
  {
    var last := |entries| - 1;
    var prefix := entries[..last];
    var before := SyncRows(rows, prefix, faults);
    var r := SyncRows(rows, entries, faults);
    if k < |before| {
      SyncAddsOnlyDiscovered(rows, prefix, faults, k);
      var i :| Discovered(prefix, i, before[k]);
      assert Discovered(entries, i, r[k]);
    } else {
      assert Discovered(entries, last, r[k]);
    }
  }

  /** Rows are only ever appended, so a cataloged title stays cataloged. */
  lemma TitlesGrow(a: seq<Row>, b: seq<Row>, t: string)
    requires a <= b && t in Titles(a)
    ensures t in Titles(b)
  {
  }

  /** A visit of a playlist whose insert does not fail leaves its title
      cataloged. */
  lemma SyncStepRegisters(rows: seq<Row>, e: WalkEntry)
    requires e.Visit? && IsPlaylist(e.path)
    ensures Title(e.name) in Titles(SyncStep(rows, e, false))
  {
  }

  /** Every playlist the walk visits ends up cataloged, unless its own
      insert failed. */
  lemma {:induction false} SyncRegisters(rows: seq<Row>, entries: seq<WalkEntry>, faults: set<nat>, i: nat)
    requires i < |entries| && i !in faults
    requires entries[i].Visit? && IsPlaylist(entries[i].path)
    ensures Title(entries[i].name) in Titles(SyncRows(rows, entries, faults))
    decreases |entries|
  {
    var last := |entries| - 1;
    var before := SyncRows(rows, entries[..last], faults);
    var r := SyncRows(rows, entries, faults);
    assert r == SyncStep(before, entries[last], last in faults);
    if i < last {
      SyncRegisters(rows, entries[..last], faults, i);
      TitlesGrow(before, r, Title(entries[i].name));
    } else {
      SyncStepRegisters(before, entries[last]);
    }
  }

  /** Once every playlist title of the walk is cataloged, the sync adds nothing. */
  lemma {:induction false} SyncOfCatalogedIsNoOp(rows: seq<Row>, entries: seq<WalkEntry>, faults: set<nat>)
    requires forall i :: 0 <= i < |entries| && entries[i].Visit? && IsPlaylist(entries[i].path) ==>
      Title(entries[i].name) in Titles(rows)
    ensures SyncRows(rows, entries, faults) == rows
    decreases |entries|
  {
    if entries != [] {
      var last := |entries| - 1;
      SyncOfCatalogedIsNoOp(rows, entries[..last], faults);
    }
  }

  /** Running the sync a second time over the same entries adds nothing,
      whatever the database does the second time. */
  lemma SyncIdempotent(rows: seq<Row>, entries: seq<WalkEntry>, faults: set<nat>)
    ensures var once := SyncRows(rows, entries, {});
      SyncRows(once, entries, faults) == once
  {
    var once := SyncRows(rows, entries, {});
    forall i | 0 <= i < |entries| && entries[i].Visit? && IsPlaylist(entries[i].path)
      ensures Title(entries[i].name) in Titles(once)
    {
      SyncRegisters(rows, entries, {}, i);
    }
    SyncOfCatalogedIsNoOp(once, entries, faults);
  }

  /** On the Unix build filepath.ToSlash changes nothing. */
  lemma ToSlashIsIdentity(path: string)
    ensures ToSlash(path) == path
  {
  }

  /** The file a mirror saves at "videos/<name>/<file>" has the playlist
      extension whenever its file name has it. */
  lemma LocalPathIsPlaylist(name: string, file: string)
    requires HasSuffix(file, PlaylistExt)
    ensures IsPlaylist(LocalPath(name, file))
  {
    var path := LocalPath(name, file);
    assert path == (StoragePrefix + name + "/") + file;
    SuffixOfAppend(StoragePrefix + name + "/", file, PlaylistExt);
  }

  /** A playlist the mirror saved is rediscovered at startup as the same
      row: the walk visiting "videos/<name>/<file>" derives the title the
      mirror registered and the path it registered, so the sync leaves the
      mirror's row as it is. */
  lemma SyncFindsMirroredPlaylist(rows: seq<Row>, file: string, fails: bool)
    requires HasSuffix(file, PlaylistExt)
    ensures var name := Title(file);
      var path := LocalPath(name, file);
      SyncStep(rows, Visit(path, file), fails) == GuardedInsert(rows, name, path, fails)
  {
    var path := LocalPath(Title(file), file);
    LocalPathIsPlaylist(Title(file), file);
    ToSlashIsIdentity(path);
  }

}
