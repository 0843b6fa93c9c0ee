/** The catalog: the `videos` table of (title, path) rows. The table has no
    uniqueness constraint; titles stay unique only because every writer
    checks that a title is absent before inserting it. */
module Catalog {
  import opened Wrappers

  datatype Row = Row(title: string, path: string)

  /** The titles of the rows, in row order. */
  function Titles(rows: seq<Row>): (ts: seq<string>)
    ensures |ts| == |rows|
    ensures forall i :: 0 <= i < |rows| ==> ts[i] == rows[i].title
    decreases |rows|
  {
    if rows == [] then [] else Titles(rows[..|rows| - 1]) + [rows[|rows| - 1].title]
  }

  /** No two rows share a title. */
  ghost predicate UniqueTitles(rows: seq<Row>)
  {
    forall i, j :: 0 <= i < j < |rows| ==> rows[i].title != rows[j].title
  }

  /** The path of the first row with this title (the row a
      `SELECT path ... WHERE title = ?` returns once titles are unique). */
  function FindPath(rows: seq<Row>, title: string): (r: Option<string>)
    ensures r.None? <==> title !in Titles(rows)
    ensures r.Some? ==> Row(title, r.value) in rows
    decreases |rows|
  {
    if rows == [] then None
    else if rows[0].title == title then Some(rows[0].path)
    else
      assert Titles(rows) == [rows[0].title] + Titles(rows[1..]);
      FindPath(rows[1..], title)
  }

  /** The rows after "insert unless exists": unchanged when the title is
      already cataloged or the insert fails, one row appended otherwise. */
  function GuardedInsert(rows: seq<Row>, title: string, path: string, fails: bool): (r: seq<Row>)
    ensures rows <= r && |r| <= |rows| + 1
    ensures |r| == |rows| + 1 <==> title !in Titles(rows) && !fails
    ensures |r| == |rows| + 1 ==> r[|rows|] == Row(title, path)
  {
    if title in Titles(rows) || fails then rows else rows + [Row(title, path)]
  }

  /** `nextFault == Some(n)`: call n of rows.Next() (the one that would step
      to row n) fails in the driver. Call `count` is the last one made, which
      would otherwise report the end of the rows; later calls are never made. */
  predicate NextFails(count: nat, nextFault: Option<nat>)
  {
    nextFault.Some? && nextFault.value <= count
  }

  /** The row before which rows.Next() reports false: the row at which the
      driver fails, or the end of the rows (a failure of the last call also
      ends the loop there). */
  function ScanEnd(count: nat, nextFault: Option<nat>): nat
  {
    if nextFault.Some? && nextFault.value < count then nextFault.value else count
  }

  datatype InsertOutcome = Added | AlreadyPresent | InsertFailed

  datatype LookupOutcome = Found(path: string) | NotFound | LookupFailed

  /** The store behind the service. Faults of the database are given as
      arguments: they are what the driver reports, not something the
      model decides. */
  class Store {
    var rows: seq<Row>

    /** The invariant the writers keep by convention. */
    ghost predicate Valid()
      reads this
    {
      UniqueTitles(rows)
    }

    constructor ()
      ensures Valid() && rows == []
    {
      rows := [];
    }

    /** FileExistsByTitle: whether some row carries exactly this title. */
    function Exists(title: string): (b: bool)
      reads this
      ensures b <==> exists i :: 0 <= i < |rows| && rows[i].title == title
    {
      FindPath(rows, title).Some?
    }

    /** The bare INSERT: appends a row unless the database reports an error. */
    method Insert(title: string, path: string, fault: bool) returns (ok: bool)
      modifies this
      ensures ok == !fault
      ensures rows == if ok then old(rows) + [Row(title, path)] else old(rows)
    {
      ok := !fault;
      if ok {
        rows := rows + [Row(title, path)];
      }
    }

    /** The registration block shared by the startup sync and the mirror:
        check that the title is absent, then insert; a failed insert is only
        reported. Afterwards the title is cataloged unless that insert failed,
        and every earlier row is untouched. */
    method InsertUnlessExists(title: string, path: string, fault: bool) returns (outcome: InsertOutcome)
      requires Valid()
      modifies this
      ensures Valid()
      ensures rows == GuardedInsert(old(rows), title, path, fault)
      ensures outcome == AlreadyPresent <==> old(Exists(title))
      ensures outcome == InsertFailed <==> !old(Exists(title)) && fault
      ensures outcome != InsertFailed ==> Exists(title)
      ensures outcome == Added ==> FindPath(rows, title) == Some(path)
    {
      if Exists(title) {
        outcome := AlreadyPresent;
      } else {
        var ok := Insert(title, path, fault);
        outcome := if ok then Added else InsertFailed;
        GuardedInsertKeepsUnique(old(rows), title, path, fault);
        if ok {
          FindPathAppend(old(rows), Row(title, path), title);
        }
      }
    }

    /** The lookup of videoLinkHandler: the path cataloged for the title, no
        row (sql.ErrNoRows), or any other database error. */
    method Lookup(title: string, fault: bool) returns (r: LookupOutcome)
      requires Valid()
      ensures r == LookupFailed <==> fault
      ensures r == NotFound <==> !fault && !Exists(title)
      ensures forall p :: r == Found(p) <==> !fault && Row(title, p) in rows
    {
      if fault {
        r := LookupFailed;
      } else {
        match FindPath(rows, title)
        case None => r := NotFound;
        case Some(p) =>
          r := Found(p);
          forall q | Row(title, q) in rows ensures q == p {
            LookupUnique(rows, title, p, q);
          }
      }
    }

    /** The listing of getAllVideosHandler: scan the titles row by row into
        a list. A failed query, or a failed scan of a row the loop reaches,
        yields no list. The loop ends when rows.Next() reports false, which
        it also does when the driver fails before row n (`nextFault`); the
        handler never consults rows.Err(), so the titles read so far are
        returned as the whole list. */
    method ListTitles(queryFault: bool, scanFaults: set<nat>, nextFault: Option<nat>) returns (r: Option<seq<string>>)
      ensures r.Some? <==> !queryFault && forall i :: 0 <= i < ScanEnd(|rows|, nextFault) ==> i !in scanFaults
      ensures r.Some? ==> r.value == Titles(rows[..ScanEnd(|rows|, nextFault)])
      ensures r.Some? && nextFault.None? ==> r.value == Titles(rows)
      ensures Valid() && r.Some? ==> forall i, j :: 0 <= i < j < |r.value| ==> r.value[i] != r.value[j]
    {
      if queryFault {
        return None;
      }
      var end := ScanEnd(|rows|, nextFault);
      var titles: seq<string> := [];
      var i := 0;
      while i < end
        invariant 0 <= i <= end
        invariant titles == Titles(rows[..i])
        invariant forall k :: 0 <= k < i ==> k !in scanFaults
      {
        if i in scanFaults {
          return None;
        }
        assert rows[..i + 1][..i] == rows[..i];
        titles := titles + [rows[i].title];
        i := i + 1;
      }
      assert nextFault.None? ==> rows[..i] == rows;
      r := Some(titles);
    }

    /** The listing as evidently intended: the same scan followed by the
        rows.Err() check, so that a driver failure on any rows.Next() call,
        the last one included, yields no list instead of a shortened or
        unchecked one. */
    method ListTitlesChecked(queryFault: bool, scanFaults: set<nat>, nextFault: Option<nat>) returns (r: Option<seq<string>>)
      ensures r.Some? <==>
        && !queryFault
        && !NextFails(|rows|, nextFault)
        && forall i :: 0 <= i < |rows| ==> i !in scanFaults
      ensures r.Some? ==> r.value == Titles(rows)
    {
      r := ListTitles(queryFault, scanFaults, nextFault);
      if NextFails(|rows|, nextFault) {
        r := None;
      } else {
        assert rows[..ScanEnd(|rows|, nextFault)] == rows;
      }
    }
  }

  /** Appending a row leaves every earlier title's path alone and makes the
      new row findable when its title was new. */
  lemma {:induction false} FindPathAppend(rows: seq<Row>, row: Row, title: string)
    ensures FindPath(rows + [row], title) ==
      if title in Titles(rows) then FindPath(rows, title)
      else if row.title == title then Some(row.path)
      else None
    decreases |rows|
  {
    if rows == [] {
      assert Titles(rows) == [];
    } else {
      assert (rows + [row])[1..] == rows[1..] + [row];
      assert Titles(rows) == [rows[0].title] + Titles(rows[1..]);
      if rows[0].title != title {
        FindPathAppend(rows[1..], row, title);
      }
    }
  }

  /** With unique titles a title names at most one row. */
  lemma LookupUnique(rows: seq<Row>, title: string, p: string, q: string)
    requires UniqueTitles(rows)
    requires Row(title, p) in rows && Row(title, q) in rows
    ensures p == q
  {
  }

  /** Insert-unless-exists keeps titles unique. */
  lemma GuardedInsertKeepsUnique(rows: seq<Row>, title: string, path: string, fails: bool)
    requires UniqueTitles(rows)
    ensures UniqueTitles(GuardedInsert(rows, title, path, fails))
  {
  }

  /** A guarded insert that does not fail leaves its title cataloged. */
  lemma GuardedInsertRegisters(rows: seq<Row>, title: string, path: string)
    ensures title in Titles(GuardedInsert(rows, title, path, false))
  {
  }

  /** What a guarded insert does to lookups: the new title now finds its
      path, and every other title finds what it found before. */
  lemma LookupAfterGuardedInsert(rows: seq<Row>, title: string, path: string, fails: bool, other: string)
    ensures FindPath(GuardedInsert(rows, title, path, fails), other) ==
      if other == title && title !in Titles(rows) && !fails then Some(path)
      else FindPath(rows, other)
  {
    if title !in Titles(rows) && !fails {
      FindPathAppend(rows, Row(title, path), other);
    }
  }

  /** Inserting the same title a second time changes nothing, whatever path
      it comes with and whether or not that insert would fail. */
  lemma GuardedInsertIdempotent(rows: seq<Row>, title: string, path: string, path': string, fails': bool)
    ensures var once := GuardedInsert(rows, title, path, false);
      GuardedInsert(once, title, path', fails') == once
  {
  }

  /** A listing cut short by rows.Next() at row n omits a cataloged title:
      row n's title is cataloged but not among the titles returned. */
  lemma TruncatedListingOmitsTitle(rows: seq<Row>, n: nat)
    requires UniqueTitles(rows) && n < |rows|
    ensures rows[n].title in Titles(rows)
    ensures rows[n].title !in Titles(rows[..ScanEnd(|rows|, Some(n))])
  {
    assert Titles(rows)[n] == rows[n].title;
    var cut := Titles(rows[..n]);
    forall k | 0 <= k < |cut| ensures cut[k] != rows[n].title {
      assert cut[k] == rows[k].title;
    }
  }

}
