/** The database of schema.go: four tables, their constraints (migration v1)
    and the vnum backfill of migration v2. The two domains, releases and
    stemcells, each own one artifact table and one version table. */
module Schema {
  import opened Base
  import opened Tables
  import Util

  /** Which pair of tables an operation works on. */
  datatype Domain = Release | Stemcell

  /** The contents of the four tables at one moment. */
  datatype Snapshot = Snapshot(
    releases: seq<Artifact>,
    stemcells: seq<Artifact>,
    releaseVersions: seq<VersionRow>,
    stemcellVersions: seq<VersionRow>)
  {
    function Artifacts(dom: Domain): seq<Artifact>
    {
      if dom == Release then releases else stemcells
    }

    function Versions(dom: Domain): seq<VersionRow>
    {
      if dom == Release then releaseVersions else stemcellVersions
    }

    function WithArtifacts(dom: Domain, arts: seq<Artifact>): Snapshot
    {
      if dom == Release then this.(releases := arts) else this.(stemcells := arts)
    }

    function WithVersions(dom: Domain, rows: seq<VersionRow>): Snapshot
    {
      if dom == Release then this.(releaseVersions := rows) else this.(stemcellVersions := rows)
    }

    /** The PRIMARY KEY and UNIQUE constraints of migration v1. */
    ghost predicate Valid()
    {
      && UniqueNames(releases) && UniqueNames(stemcells)
      && UniqueKeys(releaseVersions) && UniqueKeys(stemcellVersions)
    }
  }

  class Database {
    var releases: seq<Artifact>
    var stemcells: seq<Artifact>
    var releaseVersions: seq<VersionRow>
    var stemcellVersions: seq<VersionRow>

    function State(): Snapshot
      reads this
    {
      Snapshot(releases, stemcells, releaseVersions, stemcellVersions)
    }

    function Artifacts(dom: Domain): seq<Artifact>
      reads this
    {
      State().Artifacts(dom)
    }

    function Versions(dom: Domain): seq<VersionRow>
      reads this
    {
      State().Versions(dom)
    }

    ghost predicate Valid()
      reads this
    {
      State().Valid()
    }

    /** Migration v1: the four tables, empty, with their constraints. */
    constructor ()
      ensures Valid()
      ensures State() == Snapshot([], [], [], [])
    {
      releases, stemcells := [], [];
      releaseVersions, stemcellVersions := [], [];
    }

    /** Replaces the contents of one domain's version table. The database
        refuses a write that breaks a key constraint, so the new table must
        keep UNIQUE(name, version). */
    method SetVersions(dom: Domain, rows: seq<VersionRow>)
      requires State().WithVersions(dom, rows).Valid()
      modifies this
      ensures Valid()
      ensures State() == old(State()).WithVersions(dom, rows)
    {
      if dom == Release {
        releaseVersions := rows;
      } else {
        stemcellVersions := rows;
      }
    }

    /** Replaces the contents of one domain's artifact table, which must
        keep its PRIMARY KEY(name). */
    method SetArtifacts(dom: Domain, arts: seq<Artifact>)
      requires State().WithArtifacts(dom, arts).Valid()
      modifies this
      ensures Valid()
      ensures State() == old(State()).WithArtifacts(dom, arts)
    {
      if dom == Release {
        releases := arts;
      } else {
        stemcells := arts;
      }
    }
  }

  // ---------------------------------------------------------------------
  // Migration v2: backfill the vnum column
  // ---------------------------------------------------------------------

  /** The index of the first row, in table order, whose version vnum rejects. */
  function FirstMalformed(rows: seq<VersionRow>): (k: Option<nat>)
    ensures k.None? ==> forall i :: 0 <= i < |rows| ==> Util.VnumOf(rows[i].version).Ok?
    ensures k.Some? ==> k.value < |rows| && Util.VnumOf(rows[k.value].version).Err?
    ensures k.Some? ==> forall i :: 0 <= i < k.value ==> Util.VnumOf(rows[i].version).Ok?
  {
    if rows == [] then None
    else if Util.VnumOf(rows[0].version).Err? then Some(0)
    else match FirstMalformed(rows[1..])
      case None => None
      case Some(k) => Some(k + 1)
  }

  /** The table after the first k rows have had their vnum recomputed. */
  function BackfillPrefix(rows: seq<VersionRow>, k: nat): seq<VersionRow>
    requires k <= |rows|
    requires forall i :: 0 <= i < k ==> Util.VnumOf(rows[i].version).Ok?
  {
    seq(|rows|, i requires 0 <= i < |rows| =>
      if i < k then rows[i].(vnum := Util.VnumOf(rows[i].version).value) else rows[i])
  }

  /** The table after all of its rows have been backfilled. */
  function Backfill(rows: seq<VersionRow>): seq<VersionRow>
    requires FirstMalformed(rows).None?
  {
    BackfillPrefix(rows, |rows|)
  }

  /** The UPDATE of migration v2 changes only the vnum column: same rows, same
      order, same name, version, sha1, url and valid. */
  lemma BackfillOnlyVnum(rows: seq<VersionRow>, k: nat)
    requires k <= |rows|
    requires forall i :: 0 <= i < k ==> Util.VnumOf(rows[i].version).Ok?
    ensures |BackfillPrefix(rows, k)| == |rows|
    ensures forall i :: 0 <= i < |rows| ==> BackfillPrefix(rows, k)[i] == rows[i].(vnum := BackfillPrefix(rows, k)[i].vnum)
    ensures forall i :: k <= i < |rows| ==> BackfillPrefix(rows, k)[i] == rows[i]
  {
  }

  /** After a complete backfill every row's vnum is vnum(version). */
  lemma BackfillConsistent(rows: seq<VersionRow>)
    requires FirstMalformed(rows).None?
    ensures forall r :: r in Backfill(rows) ==> Util.VnumOf(r.version) == Ok(r.vnum)
  {
    var b := Backfill(rows);
    forall r | r in b ensures Util.VnumOf(r.version) == Ok(r.vnum) {
      var i :| 0 <= i < |b| && b[i] == r;
      assert r.version == rows[i].version;
    }
  }

  lemma BackfillKeepsUnique(rows: seq<VersionRow>, k: nat)
    requires UniqueKeys(rows)
    requires k <= |rows|
    requires forall i :: 0 <= i < k ==> Util.VnumOf(rows[i].version).Ok?
    ensures UniqueKeys(BackfillPrefix(rows, k))
  {
    KeysPreservedKeepsUnique(rows, BackfillPrefix(rows, k));
  }

  /** One backfill step: under the UNIQUE constraint the per-row UPDATE by
      (name, version) extends the backfilled prefix by exactly one row. */
  lemma BackfillStep(rows: seq<VersionRow>, i: nat)
    requires UniqueKeys(rows)
    requires i < |rows|
    requires forall j :: 0 <= j <= i ==> Util.VnumOf(rows[j].version).Ok?
    ensures var prefix := BackfillPrefix(rows, i);
      SetVnum(prefix, rows[i].name, rows[i].version, Util.VnumOf(rows[i].version).value) == BackfillPrefix(rows, i + 1)
  {
    var prefix := BackfillPrefix(rows, i);
    BackfillKeepsUnique(rows, i);
    assert prefix[i] == rows[i];
    SetVnumAt(prefix, i, Util.VnumOf(rows[i].version).value);
  }

  /** The inner loop of migration v2 over one version table: for every row of
      `SELECT name, version FROM <table>`, compute vnum and UPDATE that row,
      stopping at the first version vnum rejects. */
  method BackfillTable(d: Database, dom: Domain) returns (r: Result<()>)
    requires d.Valid()
    modifies d
    ensures d.Valid()
    ensures var rows := old(d.Versions(dom));
      match FirstMalformed(rows)
      case None => r == Ok(()) && d.State() == old(d.State()).WithVersions(dom, Backfill(rows))
      case Some(k) => r == Err(MalformedVersion) && d.State() == old(d.State()).WithVersions(dom, BackfillPrefix(rows, k))
  {
    var rows := d.Versions(dom);
    var i := 0;
    while i < |rows|
      invariant 0 <= i <= |rows|
      invariant forall k :: 0 <= k < i ==> Util.VnumOf(rows[k].version).Ok?
      invariant d.State() == old(d.State()).WithVersions(dom, BackfillPrefix(rows, i))
      invariant d.Valid()
    {
      var n := Util.Vnum(rows[i].version);
      if n.Err? {
        assert FirstMalformed(rows) == Some(i) by { FirstMalformedAt(rows, i); }
        return Err(n.error);
      }
      BackfillStep(rows, i);
      BackfillKeepsUnique(rows, i + 1);
      d.SetVersions(dom, SetVnum(d.Versions(dom), rows[i].name, rows[i].version, n.value));
      i := i + 1;
    }
    assert FirstMalformed(rows).None? by { FirstMalformedNone(rows); }
    return Ok(());
  }

  lemma {:induction false} FirstMalformedAt(rows: seq<VersionRow>, i: nat)
    requires i < |rows| && Util.VnumOf(rows[i].version).Err?
    requires forall k :: 0 <= k < i ==> Util.VnumOf(rows[k].version).Ok?
    ensures FirstMalformed(rows) == Some(i)
  {
    if i > 0 {
      FirstMalformedAt(rows[1..], i - 1);
    }
  }

  lemma {:induction false} FirstMalformedNone(rows: seq<VersionRow>)
    requires forall k :: 0 <= k < |rows| ==> Util.VnumOf(rows[k].version).Ok?
    ensures FirstMalformed(rows).None?
  {
    if rows != [] {
      FirstMalformedNone(rows[1..]);
    }
  }

  /** Migration v2: backfill release_versions, then stemcell_versions. The
      first malformed version aborts with an error; rows already updated keep
      their new vnum, since nothing is rolled back. */
  method MigrateV2(d: Database) returns (r: Result<()>)
    requires d.Valid()
    modifies d
    ensures d.Valid()
    ensures var before := old(d.State());
      var rv, sv := before.releaseVersions, before.stemcellVersions;
      match FirstMalformed(rv)
      case Some(k) =>
        r == Err(MalformedVersion) && d.State() == before.(releaseVersions := BackfillPrefix(rv, k))
      case None =>
        match FirstMalformed(sv)
        case Some(k) =>
          r == Err(MalformedVersion)
          && d.State() == before.(releaseVersions := Backfill(rv), stemcellVersions := BackfillPrefix(sv, k))
        case None =>
          r == Ok(()) && d.State() == before.(releaseVersions := Backfill(rv), stemcellVersions := Backfill(sv))
  {
    ghost var before := d.State();
    var tables := [Release, Stemcell];
    for t := 0 to |tables|
      invariant d.Valid()
      invariant t == 0 ==> d.State() == before
      invariant t >= 1 ==> FirstMalformed(before.releaseVersions).None?
      invariant t == 1 ==> d.State() == before.(releaseVersions := Backfill(before.releaseVersions))
      invariant t == 2 ==> FirstMalformed(before.stemcellVersions).None?
      invariant t == 2 ==> d.State() == before.(releaseVersions := Backfill(before.releaseVersions),
                                stemcellVersions := Backfill(before.stemcellVersions))
    {
      r := BackfillTable(d, tables[t]);
      if r.Err? {
        return;
      }
    }
    return Ok(());
  }
}
