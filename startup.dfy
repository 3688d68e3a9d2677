/** The house-cleaning statement main.go runs once at startup, before the
    HTTP server starts: every release version still pending is deleted. */
module Startup {
  import opened Tables
  import opened Schema

  /** The rows `DELETE ... WHERE valid = 0` leaves. */
  function Swept(rows: seq<VersionRow>): seq<VersionRow>
  {
    Where(rows, (r: VersionRow) => r.valid)
  }

  /** `DELETE FROM release_versions WHERE valid = 0`. The stemcell tables
      are not swept. */
  method CleanHouse(d: Database)
    requires d.Valid()
    modifies d
    ensures d.Valid()
    ensures d.State() == old(d.State()).(releaseVersions := Swept(old(d.releaseVersions)))
  {
    WhereKeepsUnique(d.releaseVersions, (r: VersionRow) => r.valid, Key);
    d.SetVersions(Release, Swept(d.Versions(Release)));
  }

  /** After the sweep exactly the valid rows remain, in their order. */
  lemma SweptExact(rows: seq<VersionRow>)
    ensures forall r :: r in Swept(rows) <==> r in rows && r.valid
    ensures forall name :: ValidRowsOf(Swept(rows), name) == ValidRowsOf(rows, name)
  {
    forall name ensures ValidRowsOf(Swept(rows), name) == ValidRowsOf(rows, name) {
      WhereNarrow(rows, (r: VersionRow) => r.valid, (r: VersionRow) => r.valid && r.name == name);
    }
  }

  /** Sweeping a swept table deletes nothing more. */
  lemma SweepIdempotent(rows: seq<VersionRow>)
    ensures Swept(Swept(rows)) == Swept(rows)
  {
    WhereAll(Swept(rows), (r: VersionRow) => r.valid);
  }

  /** The sweep does not change the highest valid vnum of any name. */
  lemma SweepKeepsMax(rows: seq<VersionRow>, name: string)
    ensures MaxValidVnum(Swept(rows), name) == MaxValidVnum(rows, name)
  {
    var before, after := MaxValidVnum(rows, name), MaxValidVnum(Swept(rows), name);
    if before.Some? {
      var top :| top in rows && top.valid && top.name == name && top.vnum == before.value;
      assert top in Swept(rows);
      var top' :| top' in Swept(rows) && top'.valid && top'.name == name && top'.vnum == after.value;
      assert top' in rows;
    }
  }

  /** After the sweep the latest-versions query returns only valid rows: the
      pending rows that tie a valid maximum are gone. */
  lemma SweptLatestAllValid(rows: seq<VersionRow>)
    ensures forall r :: r in LatestRows(Swept(rows)) ==> r.valid && r in rows
  {
  }
}
