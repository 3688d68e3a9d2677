/** The store operations of stemcell.go and release.go. The two files are the
    same code over two pairs of tables, so each operation is written once,
    over a Domain; only the version check differs between the two and is
    written twice. */
module Ledger {
  import opened Base
  import opened Tables
  import opened Schema
  import Util

  // ---------------------------------------------------------------------
  // Artifacts
  // ---------------------------------------------------------------------

  /** `INSERT INTO <artifacts> (name, url)`: refused by the PRIMARY KEY when
      the name is taken. */
  method CreateArtifact(d: Database, dom: Domain, name: string, url: string) returns (r: Result<()>)
    requires d.Valid()
    modifies d
    ensures d.Valid()
    ensures r.Err? <==> HasArtifact(old(d.Artifacts(dom)), name)
    ensures r.Err? ==> r.error == Conflict && d.State() == old(d.State())
    ensures r.Ok? ==> d.State() == old(d.State()).WithArtifacts(dom, old(d.Artifacts(dom)) + [Artifact(name, url)])
  {
    var arts := d.Artifacts(dom);
    if HasArtifact(arts, name) {
      return Err(Conflict);
    }
    AppendKeepsUnique(arts, Artifact(name, url), ArtifactName);
    d.SetArtifacts(dom, arts + [Artifact(name, url)]);
    return Ok(());
  }

  /** `SELECT name FROM <artifacts>`, read row by row. */
  method FindAllArtifacts(d: Database, dom: Domain) returns (names: seq<string>)
    ensures |names| == |d.Artifacts(dom)|
    ensures forall k :: 0 <= k < |names| ==> names[k] == d.Artifacts(dom)[k].name
    ensures forall n :: n in names <==> HasArtifact(d.Artifacts(dom), n)
    ensures d.Valid() ==> forall i, j :: 0 <= i < j < |names| ==> names[i] != names[j]
  {
    var arts := d.Artifacts(dom);
    names := [];
    for i := 0 to |arts|
      invariant |names| == i
      invariant forall k :: 0 <= k < i ==> names[k] == arts[k].name
    {
      names := names + [arts[i].name];
    }
    forall n | HasArtifact(arts, n) ensures n in names {
      var i :| 0 <= i < |arts| && arts[i].name == n;
      assert names[i] == n;
    }
    if d.Valid() {
      forall i, j | 0 <= i < j < |names| ensures names[i] != names[j] {
        assert ArtifactName(arts[i]) != ArtifactName(arts[j]);
      }
    }
  }

  /** `SELECT name, url FROM <artifacts> WHERE name = $1`, first row. */
  function FindArtifact(arts: seq<Artifact>, name: string): (r: Result<Artifact>)
    ensures r.Ok? <==> HasArtifact(arts, name)
    ensures r.Ok? ==> r.value in arts && r.value.name == name
    ensures r.Err? ==> r.error == NotFound
  {
    var selected := Where(arts, (a: Artifact) => a.name == name);
    if selected == [] then
      assert !HasArtifact(arts, name) by {
        forall i | 0 <= i < |arts| ensures arts[i].name != name {
          assert arts[i] in arts;
        }
      }
      Err(NotFound)
    else
      assert selected[0] in selected;
      Ok(selected[0])
  }

  /** A created artifact is found, with the url it was created with. */
  lemma CreateThenFind(arts: seq<Artifact>, name: string, url: string)
    requires !HasArtifact(arts, name)
    ensures FindArtifact(arts + [Artifact(name, url)], name) == Ok(Artifact(name, url))
  {
    var keep := (a: Artifact) => a.name == name;
    WhereAppend(arts, [Artifact(name, url)], keep);
    forall a | a in arts ensures !keep(a) {
      var i :| 0 <= i < |arts| && arts[i] == a;
    }
    WhereNone(arts, keep);
  }

  /** Under the PRIMARY KEY the artifact found is the only one of its name. */
  lemma FindArtifactUnique(arts: seq<Artifact>, name: string, a: Artifact)
    requires UniqueNames(arts)
    requires a in arts && a.name == name
    ensures FindArtifact(arts, name) == Ok(a)
  {
    var f := FindArtifact(arts, name).value;
    var i :| 0 <= i < |arts| && arts[i] == a;
    var j :| 0 <= j < |arts| && arts[j] == f;
    assert ArtifactName(arts[i]) == ArtifactName(arts[j]);
  }

  // ---------------------------------------------------------------------
  // Versions
  // ---------------------------------------------------------------------

  /** `SELECT name, version, sha1, url ... WHERE name = $1 AND valid = 1
      ORDER BY vnum DESC`, read row by row; an empty cursor is an error
      only when the artifact does not exist either. */
  method FindAllVersions(d: Database, dom: Domain, name: string) returns (r: Result<seq<Listing>>)
    ensures r.Ok? <==> ValidRowsOf(d.Versions(dom), name) != [] || HasArtifact(d.Artifacts(dom), name)
    ensures r.Err? ==> r.error == NotFound
    ensures r.Ok? ==> exists sorted :: IsVnumDescOrder(sorted, ValidRowsOf(d.Versions(dom), name)) && r.value == Listings(sorted)
  {
    var valid := ValidRowsOf(d.Versions(dom), name);
    var cursor := SortByVnumDesc(valid);
    SortByVnumDescCorrect(valid);
    var l: seq<Listing> := [];
    for i := 0 to |cursor|
      invariant |l| == i
      invariant forall k :: 0 <= k < i ==> l[k] == ListingOf(cursor[k])
    {
      l := l + [ListingOf(cursor[i])];
    }
    assert l == Listings(cursor);
    assert |cursor| == |valid| by {
      assert |multiset(cursor)| == |multiset(valid)|;
    }
    if |l| == 0 {
      if HasArtifact(d.Artifacts(dom), name) {
        return Ok(l);
      }
      return Err(NotFound);
    }
    return Ok(l);
  }

  /** Every listing of a version list comes from a valid row of the artifact,
      and every valid row of the artifact is listed. */
  lemma ListingsAreValidRows(rows: seq<VersionRow>, name: string, sorted: seq<VersionRow>)
    requires IsVnumDescOrder(sorted, ValidRowsOf(rows, name))
    ensures |Listings(sorted)| == |ValidRowsOf(rows, name)|
    ensures forall k :: 0 <= k < |sorted| ==> sorted[k] in rows && sorted[k].valid && sorted[k].name == name
    ensures forall row :: row in rows && row.valid && row.name == name ==> ListingOf(row) in Listings(sorted)
    ensures forall k :: 0 <= k < |sorted| - 1 ==> sorted[k + 1].vnum <= sorted[k].vnum
  {
    var valid := ValidRowsOf(rows, name);
    assert |multiset(sorted)| == |multiset(valid)|;
    forall k | 0 <= k < |sorted| ensures sorted[k] in rows && sorted[k].valid && sorted[k].name == name {
      assert sorted[k] in multiset(sorted);
      assert sorted[k] in multiset(valid);
    }
    forall row | row in rows && row.valid && row.name == name ensures ListingOf(row) in Listings(sorted) {
      assert row in multiset(valid);
      assert row in multiset(sorted);
      var k :| 0 <= k < |sorted| && sorted[k] == row;
      assert Listings(sorted)[k] == ListingOf(row);
    }
  }

  /** What the latest-versions result lists: only rows carrying the highest
      valid vnum of their name, and at least one row for every name that has
      a valid row. */
  lemma LatestListings(rows: seq<VersionRow>)
    ensures forall k :: 0 <= k < |Listings(LatestRows(rows))| ==>
      (exists row :: row in rows && ListingOf(row) == Listings(LatestRows(rows))[k]
        && MaxValidVnum(rows, row.name) == Some(row.vnum))
    ensures forall row :: row in rows && row.valid ==>
      (exists k :: 0 <= k < |Listings(LatestRows(rows))| && Listings(LatestRows(rows))[k].name == row.name)
  {
    var latest := LatestRows(rows);
    var l := Listings(latest);
    forall k | 0 <= k < |l|
      ensures exists row :: (row in rows && ListingOf(row) == l[k]
        && MaxValidVnum(rows, row.name) == Some(row.vnum))
    {
      assert latest[k] in latest;
    }
    forall row | row in rows && row.valid ensures exists k :: 0 <= k < |l| && l[k].name == row.name {
      LatestRowsCoverNames(rows, row.name);
      var top :| top in latest && top.name == row.name;
      var k :| 0 <= k < |latest| && latest[k] == top;
      assert l[k].name == row.name;
    }
  }

  /** The latest-versions join, read row by row. */
  method FindLatestVersions(d: Database, dom: Domain) returns (l: seq<Listing>)
    ensures l == Listings(LatestRows(d.Versions(dom)))
  {
    var cursor := LatestRows(d.Versions(dom));
    l := [];
    for i := 0 to |cursor|
      invariant |l| == i
      invariant forall k :: 0 <= k < i ==> l[k] == ListingOf(cursor[k])
    {
      l := l + [ListingOf(cursor[i])];
    }
  }

  /** The rows a version lookup selects: valid rows of the artifact, and of
      the version when one is given. */
  function Candidates(rows: seq<VersionRow>, name: string, version: string): (c: seq<VersionRow>)
    ensures forall row :: row in c <==>
      row in rows && row.valid && row.name == name && (version == "" || row.version == version)
  {
    Where(ValidRowsOf(rows, name), (row: VersionRow) => version == "" || row.version == version)
  }

  /** `SELECT ... WHERE name = $1 AND valid = 1 [AND version = $2]
      ORDER BY vnum DESC LIMIT 1`. With no version the result is a valid row
      of highest vnum; with a version it is that version's valid row. */
  function FindVersion(arts: seq<Artifact>, rows: seq<VersionRow>, name: string, version: string): (r: Result<Listing>)
    ensures r.Ok? ==> exists row :: (row in rows && row.valid && row.name == name && ListingOf(row) == r.value
      && (version != "" ==> row.version == version)
      && (version == "" ==> forall o :: o in rows && o.valid && o.name == name ==> o.vnum <= row.vnum))
    ensures r.Ok? <==> exists row :: row in rows && row.valid && row.name == name && (version == "" || row.version == version)
    ensures version != "" && r.Err? ==> r.error == VersionNotFound
    ensures version == "" && r.Err? ==> r.error == (if HasArtifact(arts, name) then NoKnownVersions else NotFound)
  {
    var selected := Candidates(rows, name, version);
    var ordered := SortByVnumDesc(selected);
    SortByVnumDescCorrect(selected);
    if ordered == [] then
      assert selected == [] by { assert |multiset(ordered)| == |multiset(selected)|; }
      if version != "" then Err(VersionNotFound)
      else if HasArtifact(arts, name) then Err(NoKnownVersions)
      else Err(NotFound)
    else
      FirstHasMaxVnum(ordered, selected);
      Ok(ListingOf(ordered[0]))
  }

  // ---------------------------------------------------------------------
  // Deletion
  // ---------------------------------------------------------------------

  /** `DELETE FROM <versions> WHERE name = $1`, then
      `DELETE FROM <artifacts> WHERE name = $1`. */
  method DeleteArtifact(d: Database, dom: Domain, name: string)
    requires d.Valid()
    modifies d
    ensures d.Valid()
    ensures d.State() == old(d.State())
      .WithVersions(dom, WithoutName(old(d.Versions(dom)), name))
      .WithArtifacts(dom, WithoutArtifact(old(d.Artifacts(dom)), name))
  {
    WhereKeepsUnique(d.Versions(dom), (r: VersionRow) => r.name != name, Key);
    d.SetVersions(dom, WithoutName(d.Versions(dom), name));
    WhereKeepsUnique(d.Artifacts(dom), (a: Artifact) => a.name != name, ArtifactName);
    d.SetArtifacts(dom, WithoutArtifact(d.Artifacts(dom), name));
  }

  /** `DELETE FROM <versions> WHERE name = $1 AND version = $2`; deleting an
      absent version succeeds and changes nothing. */
  method DeleteVersion(d: Database, dom: Domain, name: string, version: string)
    requires d.Valid()
    modifies d
    ensures d.Valid()
    ensures d.State() == old(d.State()).WithVersions(dom, WithoutKey(old(d.Versions(dom)), name, version))
  {
    WhereKeepsUnique(d.Versions(dom), (r: VersionRow) => Key(r) != (name, version), Key);
    d.SetVersions(dom, WithoutKey(d.Versions(dom), name, version));
  }

  /** After an artifact is deleted neither it nor any version of it is found. */
  lemma DeleteArtifactThenFind(arts: seq<Artifact>, rows: seq<VersionRow>, name: string, version: string)
    ensures FindArtifact(WithoutArtifact(arts, name), name) == Err(NotFound)
    ensures FindVersion(WithoutArtifact(arts, name), WithoutName(rows, name), name, version).Err?
    ensures FindVersion(WithoutArtifact(arts, name), WithoutName(rows, name), name, "") == Err(NotFound)
  {
    WithoutArtifactExact(arts, name);
    WithoutNameExact(rows, name);
  }

  /** After a version is deleted it is not found. */
  lemma DeleteVersionThenFind(arts: seq<Artifact>, rows: seq<VersionRow>, name: string, version: string)
    requires version != ""
    ensures FindVersion(arts, WithoutKey(rows, name, version), name, version) == Err(VersionNotFound)
  {
    WithoutKeyExact(rows, name, version);
  }

  // ---------------------------------------------------------------------
  // Version checks
  // ---------------------------------------------------------------------

  /** The version table after one check of (name, version) whose artifact
      exists, step by step: a key not yet present is claimed with a pending
      row when vnum accepts the version; a failed fetch deletes the key
      unless it was present before; a successful fetch marks the key valid
      with the url and digest. `fetched` is the outcome of downloading and
      hashing the url: None on failure, or the SHA1 digest. */
  function CheckedRows(rows: seq<VersionRow>, name: string, version: string, url: string, fetched: Option<string>): seq<VersionRow>
  {
    var recheck := HasKey(rows, name, version);
    var num := Util.VnumOf(version);
    var claimed := if recheck || num.Err? then rows else rows + [PendingRow(name, version, num.value)];
    match fetched
    case None => if recheck then claimed else WithoutKey(claimed, name, version)
    case Some(sha1) => MarkValid(claimed, name, version, url, sha1)
  }

  /** A failed fetch leaves the version table as it was: the pending row it
      inserted is deleted again, and a key that was present is kept. */
  lemma CheckFailureRestores(rows: seq<VersionRow>, name: string, version: string, url: string)
    ensures CheckedRows(rows, name, version, url, None) == rows
  {
    if !HasKey(rows, name, version) {
      var num := Util.VnumOf(version);
      if num.Ok? {
        DeleteUndoesInsert(rows, PendingRow(name, version, num.value));
      } else {
        WithoutAbsentKey(rows, name, version);
      }
    }
  }

  /** A new version that vnum rejects leaves the table as it was, whatever
      the fetch does: nothing is inserted, and the DELETE and UPDATE that
      follow match no row. */
  lemma CheckMalformedUnchanged(rows: seq<VersionRow>, name: string, version: string, url: string, fetched: Option<string>)
    requires !HasKey(rows, name, version) && Util.VnumOf(version).Err?
    ensures CheckedRows(rows, name, version, url, fetched) == rows
  {
    if fetched.None? {
      WithoutAbsentKey(rows, name, version);
    } else {
      MarkValidAbsent(rows, name, version, url, fetched.value);
    }
  }

  /** A successful check lists the version with the fetched url and digest; a
      new version's row carries vnum(version). */
  lemma CheckSuccessListed(rows: seq<VersionRow>, name: string, version: string, url: string, sha1: string)
    requires HasKey(rows, name, version) || Util.VnumOf(version).Ok?
    ensures exists row :: (row in ValidRowsOf(CheckedRows(rows, name, version, url, Some(sha1)), name)
      && row.version == version && row.url == url && row.sha1 == sha1
      && (!HasKey(rows, name, version) ==> Ok(row.vnum) == Util.VnumOf(version)))
  {
    var recheck := HasKey(rows, name, version);
    var num := Util.VnumOf(version);
    var claimed := if recheck then rows else rows + [PendingRow(name, version, num.value)];
    var m := MarkValid(claimed, name, version, url, sha1);
    assert m == CheckedRows(rows, name, version, url, Some(sha1));
    var i: nat;
    if recheck {
      i :| i < |rows| && Key(rows[i]) == (name, version);
    } else {
      i := |rows|;
    }
    assert Key(claimed[i]) == (name, version);
    assert m[i] in m;
    assert m[i] in ValidRowsOf(m, name);
  }

  /** A check touches only the rows of its key: every other row stays, and no
      other row appears. */
  lemma CheckOnlyTouchesKey(rows: seq<VersionRow>, name: string, version: string, url: string, fetched: Option<string>)
    ensures forall row :: row in rows && Key(row) != (name, version) ==> row in CheckedRows(rows, name, version, url, fetched)
    ensures forall row :: row in CheckedRows(rows, name, version, url, fetched) && Key(row) != (name, version) ==> row in rows
  {
    var recheck := HasKey(rows, name, version);
    var num := Util.VnumOf(version);
    var claimed := if recheck || num.Err? then rows else rows + [PendingRow(name, version, num.value)];
    assert forall row :: row in claimed && Key(row) != (name, version) ==> row in rows;
    match fetched {
      case None =>
        if !recheck {
          WithoutKeyExact(claimed, name, version);
        }
      case Some(sha1) =>
        var m := MarkValid(claimed, name, version, url, sha1);
        forall row | row in rows && Key(row) != (name, version) ensures row in m {
          var i :| 0 <= i < |rows| && rows[i] == row;
          assert m[i] == row;
        }
        forall row | row in m && Key(row) != (name, version) ensures row in rows {
          var i :| 0 <= i < |m| && m[i] == row;
          assert claimed[i] == row;
        }
    }
  }

  /** A check never demotes: a key that had a valid row still has one. */
  lemma CheckNeverDemotes(rows: seq<VersionRow>, name: string, version: string, url: string, fetched: Option<string>, old_row: VersionRow)
    requires old_row in rows && old_row.valid
    ensures exists row :: row in CheckedRows(rows, name, version, url, fetched) && Key(row) == Key(old_row) && row.valid
  {
    var checked := CheckedRows(rows, name, version, url, fetched);
    if Key(old_row) != (name, version) {
      CheckOnlyTouchesKey(rows, name, version, url, fetched);
      assert old_row in checked;
    } else {
      var i :| 0 <= i < |rows| && rows[i] == old_row;
      assert HasKey(rows, name, version);
      match fetched {
        case None =>
        case Some(sha1) =>
          assert checked[i] in checked;
      }
    }
  }

  lemma CheckKeepsUnique(rows: seq<VersionRow>, name: string, version: string, url: string, fetched: Option<string>)
    requires UniqueKeys(rows)
    ensures UniqueKeys(CheckedRows(rows, name, version, url, fetched))
  {
    var recheck := HasKey(rows, name, version);
    var num := Util.VnumOf(version);
    var claimed := if recheck || num.Err? then rows else rows + [PendingRow(name, version, num.value)];
    if !(recheck || num.Err?) {
      AppendKeepsUnique(rows, PendingRow(name, version, num.value), Key);
    }
    match fetched {
      case None =>
        WhereKeepsUnique(claimed, (r: VersionRow) => Key(r) != (name, version), Key);
      case Some(sha1) =>
        MarkValidKeepsUnique(claimed, name, version, url, sha1);
    }
  }

  /** Two rows of a table with the UNIQUE constraint and the same key are
      the same row. */
  lemma UniqueKeyRow(rows: seq<VersionRow>, a: VersionRow, b: VersionRow)
    requires UniqueKeys(rows) && a in rows && b in rows && Key(a) == Key(b)
    ensures a == b
  {
    var i :| 0 <= i < |rows| && rows[i] == a;
    var j :| 0 <= j < |rows| && rows[j] == b;
    assert Key(rows[i]) == Key(rows[j]);
  }

  /** After a successful check, looking the version up finds exactly the
      fetched url and digest. */
  lemma CheckThenFind(arts: seq<Artifact>, rows: seq<VersionRow>, name: string, version: string, url: string, sha1: string)
    requires UniqueKeys(rows)
    requires version != ""
    requires HasKey(rows, name, version) || Util.VnumOf(version).Ok?
    ensures FindVersion(arts, CheckedRows(rows, name, version, url, Some(sha1)), name, version) == Ok(Listing(name, version, sha1, url))
  {
    var checked := CheckedRows(rows, name, version, url, Some(sha1));
    CheckSuccessListed(rows, name, version, url, sha1);
    CheckKeepsUnique(rows, name, version, url, Some(sha1));
    var listed :| listed in ValidRowsOf(checked, name) && listed.version == version && listed.url == url && listed.sha1 == sha1;
    var r := FindVersion(arts, checked, name, version);
    assert r.Ok?;
    var found :| found in checked && found.valid && found.name == name && ListingOf(found) == r.value && found.version == version;
    UniqueKeyRow(checked, found, listed);
  }

  /** CheckStemcellVersion: a stemcell that does not exist, and a new version
      that vnum rejects, are errors returned before anything is fetched;
      otherwise the check runs to completion. */
  method CheckStemcellVersion(d: Database, name: string, version: string, fetched: Option<string>) returns (r: Result<()>)
    requires d.Valid()
    modifies d
    ensures d.Valid()
    ensures var before := old(d.State());
      var found := FindArtifact(before.stemcells, name);
      var rows := before.stemcellVersions;
      if found.Err? then r == Err(NotFound) && d.State() == before
      else if !HasKey(rows, name, version) && Util.VnumOf(version).Err? then
        r == Err(MalformedVersion) && d.State() == before
      else
        r == Ok(()) && d.State() == before.(stemcellVersions :=
          CheckedRows(rows, name, version, Util.Urlify(found.value.url, version), fetched))
  {
    ghost var before := d.State();
    var found := FindArtifact(d.Artifacts(Stemcell), name);
    if found.Err? {
      return Err(found.error);
    }
    var url := Util.Urlify(found.value.url, version);
    var recheck := true;
    if !HasKey(d.Versions(Stemcell), name, version) {
      recheck := false;
      var num := Util.Vnum(version);
      if num.Err? {
        return Err(num.error);
      }
      AppendKeepsUnique(d.Versions(Stemcell), PendingRow(name, version, num.value), Key);
      d.SetVersions(Stemcell, d.Versions(Stemcell) + [PendingRow(name, version, num.value)]);
    }
    match fetched {
      case None =>
        if !recheck {
          WhereKeepsUnique(d.Versions(Stemcell), (r: VersionRow) => Key(r) != (name, version), Key);
          d.SetVersions(Stemcell, WithoutKey(d.Versions(Stemcell), name, version));
        }
      case Some(sha1) =>
        MarkValidKeepsUnique(d.Versions(Stemcell), name, version, url, sha1);
        d.SetVersions(Stemcell, MarkValid(d.Versions(Stemcell), name, version, url, sha1));
    }
    return Ok(());
  }

  /** CheckReleaseVersion: returns nothing. A release that does not exist
      stops the check; a new version that vnum rejects is not inserted, but
      the fetch and the DELETE or UPDATE after it still run. */
  method CheckReleaseVersion(d: Database, name: string, version: string, fetched: Option<string>)
    requires d.Valid()
    modifies d
    ensures d.Valid()
    ensures var before := old(d.State());
      var found := FindArtifact(before.releases, name);
      if found.Err? then d.State() == before
      else d.State() == before.(releaseVersions :=
        CheckedRows(before.releaseVersions, name, version, Util.Urlify(found.value.url, version), fetched))
  {
    ghost var before := d.State();
    var found := FindArtifact(d.Artifacts(Release), name);
    if found.Err? {
      return;
    }
    var url := Util.Urlify(found.value.url, version);
    var recheck := true;
    if !HasKey(d.Versions(Release), name, version) {
      recheck := false;
      var num := Util.Vnum(version);
      if num.Ok? {
        AppendKeepsUnique(d.Versions(Release), PendingRow(name, version, num.value), Key);
        d.SetVersions(Release, d.Versions(Release) + [PendingRow(name, version, num.value)]);
      }
    }
    match fetched {
      case None =>
        if !recheck {
          WhereKeepsUnique(d.Versions(Release), (r: VersionRow) => Key(r) != (name, version), Key);
          d.SetVersions(Release, WithoutKey(d.Versions(Release), name, version));
        }
      case Some(sha1) =>
        MarkValidKeepsUnique(d.Versions(Release), name, version, url, sha1);
        d.SetVersions(Release, MarkValid(d.Versions(Release), name, version, url, sha1));
    }
  }
}
