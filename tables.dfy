/** The rows of the ledger's SQL tables (schema.go) and the SQL the store
    issues against them, as functions on sequences of rows: WHERE is a
    filter, ORDER BY vnum DESC a sort, GROUP BY name with MAX(vnum) a
    maximum, UPDATE a pointwise rewrite and DELETE a filter that keeps the
    rows not matched. Row order in a table is insertion order. */
module Tables {
  import opened Base

  /** A row of `releases` / `stemcells`: the name (PRIMARY KEY) and the URL
      template versions are fetched from. */
  datatype Artifact = Artifact(name: string, url: string)

  /** A row of `release_versions` / `stemcell_versions`. The INTEGER `valid`
      column only ever holds 0 or 1, so it is a bool here. */
  datatype VersionRow = VersionRow(name: string, version: string, vnum: uint64, sha1: string, url: string, valid: bool)

  /** What the listing queries select and return (the Go Release / Stemcell
      struct): vnum and valid are not part of it. */
  datatype Listing = Listing(name: string, version: string, sha1: string, url: string)

  function ListingOf(r: VersionRow): Listing
  {
    Listing(r.name, r.version, r.sha1, r.url)
  }

  function Listings(rows: seq<VersionRow>): (l: seq<Listing>)
  {
    seq(|rows|, i requires 0 <= i < |rows| => ListingOf(rows[i]))
  }

  /** A row inserted with only (name, version, vnum) gets the column defaults
      of migration v1: sha1 '', url '' and valid 0. */
  function PendingRow(name: string, version: string, vnum: uint64): VersionRow
  {
    VersionRow(name, version, vnum, "", "", false)
  }

  function ArtifactName(a: Artifact): string { a.name }

  function Key(r: VersionRow): (string, string) { (r.name, r.version) }

  // ---------------------------------------------------------------------
  // Schema constraints
  // ---------------------------------------------------------------------

  ghost predicate UniqueBy<T, K>(s: seq<T>, key: T -> K)
  {
    forall i, j :: 0 <= i < j < |s| ==> key(s[i]) != key(s[j])
  }

  /** `name ... PRIMARY KEY` of releases and stemcells. */
  ghost predicate UniqueNames(arts: seq<Artifact>) { UniqueBy(arts, ArtifactName) }

  /** `UNIQUE (name, version)` of the two version tables. */
  ghost predicate UniqueKeys(rows: seq<VersionRow>) { UniqueBy(rows, Key) }

  /** `SELECT * FROM <artifacts> WHERE name = $1` counts a row. */
  predicate HasArtifact(arts: seq<Artifact>, name: string)
  {
    exists i :: 0 <= i < |arts| && arts[i].name == name
  }

  /** `SELECT * FROM <versions> WHERE name = $1 AND version = $2` counts a row. */
  predicate HasKey(rows: seq<VersionRow>, name: string, version: string)
  {
    exists i :: 0 <= i < |rows| && Key(rows[i]) == (name, version)
  }

  // ---------------------------------------------------------------------
  // WHERE
  // ---------------------------------------------------------------------

  /** The rows a WHERE clause selects, in table order. */
  function Where<T(!new)>(s: seq<T>, keep: T -> bool): (r: seq<T>)
    ensures |r| <= |s|
    ensures forall x :: x in r <==> x in s && keep(x)
  {
    if s == [] then [] else (if keep(s[0]) then [s[0]] else []) + Where(s[1..], keep)
  }

  lemma {:induction false} WhereAppend<T(!new)>(s: seq<T>, t: seq<T>, keep: T -> bool)
    ensures Where(s + t, keep) == Where(s, keep) + Where(t, keep)
  {
    if s != [] {
      assert (s + t)[1..] == s[1..] + t;
      WhereAppend(s[1..], t, keep);
    } else {
      assert s + t == t;
    }
  }

  /** A WHERE that every row satisfies selects the whole table. */
  lemma {:induction false} WhereAll<T(!new)>(s: seq<T>, keep: T -> bool)
    requires forall x :: x in s ==> keep(x)
    ensures Where(s, keep) == s
  {
    if s != [] {
      WhereAll(s[1..], keep);
      assert [s[0]] + s[1..] == s;
    }
  }

  /** A WHERE that no row satisfies selects nothing. */
  lemma {:induction false} WhereNone<T(!new)>(s: seq<T>, keep: T -> bool)
    requires forall x :: x in s ==> !keep(x)
    ensures Where(s, keep) == []
  {
    if s != [] {
      WhereNone(s[1..], keep);
    }
  }

  /** Filtering by a weaker condition first changes nothing. */
  lemma {:induction false} WhereNarrow<T(!new)>(s: seq<T>, weak: T -> bool, strong: T -> bool)
    requires forall x :: strong(x) ==> weak(x)
    ensures Where(Where(s, weak), strong) == Where(s, strong)
  {
    if s != [] {
      WhereNarrow(s[1..], weak, strong);
      var head := if weak(s[0]) then [s[0]] else [];
      WhereAppend(head, Where(s[1..], weak), strong);
    }
  }

  /** A selection of a table with a unique key has a unique key. */
  lemma {:induction false} WhereKeepsUnique<T(!new), K>(s: seq<T>, keep: T -> bool, key: T -> K)
    requires UniqueBy(s, key)
    ensures UniqueBy(Where(s, keep), key)
  {
    if s != [] {
      assert UniqueBy(s[1..], key) by {
        forall i, j | 0 <= i < j < |s[1..]| ensures key(s[1..][i]) != key(s[1..][j]) {
          assert s[1..][i] == s[i + 1] && s[1..][j] == s[j + 1];
        }
      }
      WhereKeepsUnique(s[1..], keep, key);
      var rest := Where(s[1..], keep);
      if keep(s[0]) {
        forall j | 0 <= j < |rest| ensures key(s[0]) != key(rest[j]) {
          assert rest[j] in s[1..];
          var k :| 0 <= k < |s[1..]| && s[1..][k] == rest[j];
          assert s[k + 1] == rest[j];
        }
        var r := [s[0]] + rest;
        forall i, j | 0 <= i < j < |r| ensures key(r[i]) != key(r[j]) {
          if i > 0 { assert r[i] == rest[i - 1]; }
          assert r[j] == rest[j - 1];
        }
      }
    }
  }

  /** Appending a row whose key is new keeps the key unique. */
  lemma AppendKeepsUnique<T, K>(s: seq<T>, x: T, key: T -> K)
    requires UniqueBy(s, key)
    requires forall i :: 0 <= i < |s| ==> key(s[i]) != key(x)
    ensures UniqueBy(s + [x], key)
  {
    var r := s + [x];
    forall i, j | 0 <= i < j < |r| ensures key(r[i]) != key(r[j]) {
      assert r[i] == s[i];
      if j < |s| { assert r[j] == s[j]; }
    }
  }

  /** A rewrite that keeps each row's key keeps the key unique. */
  lemma KeysPreservedKeepsUnique(s: seq<VersionRow>, t: seq<VersionRow>)
    requires UniqueKeys(s)
    requires |t| == |s| && forall i :: 0 <= i < |s| ==> Key(t[i]) == Key(s[i])
    ensures UniqueKeys(t)
  {
  }

  // ---------------------------------------------------------------------
  // The selections the store uses
  // ---------------------------------------------------------------------

  /** `WHERE name = $1 AND valid = 1`. */
  function ValidRowsOf(rows: seq<VersionRow>, name: string): seq<VersionRow>
  {
    Where(rows, (r: VersionRow) => r.valid && r.name == name)
  }

  /** The rows a `DELETE ... WHERE name = $1` leaves. */
  function WithoutName(rows: seq<VersionRow>, name: string): seq<VersionRow>
  {
    Where(rows, (r: VersionRow) => r.name != name)
  }

  /** The rows a `DELETE ... WHERE name = $1 AND version = $2` leaves. */
  function WithoutKey(rows: seq<VersionRow>, name: string, version: string): seq<VersionRow>
  {
    Where(rows, (r: VersionRow) => Key(r) != (name, version))
  }

  /** The artifact rows a `DELETE ... WHERE name = $1` leaves. */
  function WithoutArtifact(arts: seq<Artifact>, name: string): seq<Artifact>
  {
    Where(arts, (a: Artifact) => a.name != name)
  }

  /** Deleting a key that is absent deletes nothing. */
  lemma WithoutAbsentKey(rows: seq<VersionRow>, name: string, version: string)
    requires !HasKey(rows, name, version)
    ensures WithoutKey(rows, name, version) == rows
  {
    WhereAll(rows, (r: VersionRow) => Key(r) != (name, version));
  }

  /** Inserting a row under a fresh key and deleting that key restores the
      table: a create-then-discard leaves no trace. */
  lemma DeleteUndoesInsert(rows: seq<VersionRow>, row: VersionRow)
    requires !HasKey(rows, row.name, row.version)
    ensures WithoutKey(rows + [row], row.name, row.version) == rows
  {
    WhereAppend(rows, [row], (r: VersionRow) => Key(r) != (row.name, row.version));
    WithoutAbsentKey(rows, row.name, row.version);
  }

  /** DELETE of one key removes exactly the rows with that key. */
  lemma WithoutKeyExact(rows: seq<VersionRow>, name: string, version: string)
    ensures forall r :: r in WithoutKey(rows, name, version) <==> r in rows && Key(r) != (name, version)
    ensures !HasKey(WithoutKey(rows, name, version), name, version)
  {
    var w := WithoutKey(rows, name, version);
    forall i | 0 <= i < |w| ensures Key(w[i]) != (name, version) {
      assert w[i] in w;
    }
  }

  /** Dropping every row of one name leaves no row of it, and leaves every
      other name's rows (hence listings) exactly as they were. */
  lemma WithoutNameExact(rows: seq<VersionRow>, name: string)
    ensures forall r :: r in WithoutName(rows, name) ==> r.name != name
    ensures ValidRowsOf(WithoutName(rows, name), name) == []
    ensures forall other :: other != name ==> ValidRowsOf(WithoutName(rows, name), other) == ValidRowsOf(rows, other)
  {
    var w := WithoutName(rows, name);
    WhereNone(w, (r: VersionRow) => r.valid && r.name == name);
    forall other | other != name
      ensures ValidRowsOf(w, other) == ValidRowsOf(rows, other)
    {
      WhereNarrow(rows, (r: VersionRow) => r.name != name, (r: VersionRow) => r.valid && r.name == other);
    }
  }

  /** After dropping an artifact's row no artifact of that name is left and
      the other artifacts are untouched. */
  lemma WithoutArtifactExact(arts: seq<Artifact>, name: string)
    ensures !HasArtifact(WithoutArtifact(arts, name), name)
    ensures forall other :: other != name ==> (HasArtifact(WithoutArtifact(arts, name), other) <==> HasArtifact(arts, other))
  {
    var w := WithoutArtifact(arts, name);
    forall i | 0 <= i < |w| ensures w[i].name != name {
      assert w[i] in w;
    }
    forall other | other != name
      ensures HasArtifact(w, other) <==> HasArtifact(arts, other)
    {
      if HasArtifact(arts, other) {
        var i :| 0 <= i < |arts| && arts[i].name == other;
        assert arts[i] in w;
        var j :| 0 <= j < |w| && w[j] == arts[i];
      }
      if HasArtifact(w, other) {
        var i :| 0 <= i < |w| && w[i].name == other;
        assert w[i] in arts;
        var j :| 0 <= j < |arts| && arts[j] == w[i];
      }
    }
  }

  // ---------------------------------------------------------------------
  // ORDER BY vnum DESC
  // ---------------------------------------------------------------------

  ghost predicate SortedByVnumDesc(s: seq<VersionRow>)
  {
    forall i, j :: 0 <= i < j < |s| ==> s[i].vnum >= s[j].vnum
  }

  function InsertByVnum(x: VersionRow, s: seq<VersionRow>): seq<VersionRow>
  {
    if s == [] || s[0].vnum < x.vnum then [x] + s else [s[0]] + InsertByVnum(x, s[1..])
  }

  /** One ordering ORDER BY vnum DESC may produce (the database breaks ties
      as it likes; this one is an insertion sort). */
  function SortByVnumDesc(s: seq<VersionRow>): seq<VersionRow>
  {
    if s == [] then [] else InsertByVnum(s[0], SortByVnumDesc(s[1..]))
  }

  lemma {:induction false} InsertByVnumMultiset(x: VersionRow, s: seq<VersionRow>)
    ensures multiset(InsertByVnum(x, s)) == multiset(s) + multiset{x}
  {
    if s != [] && s[0].vnum >= x.vnum {
      InsertByVnumMultiset(x, s[1..]);
      assert [s[0]] + s[1..] == s;
    }
  }

  lemma SortedTail(s: seq<VersionRow>)
    requires SortedByVnumDesc(s) && s != []
    ensures SortedByVnumDesc(s[1..])
    ensures forall y :: y in s[1..] ==> y.vnum <= s[0].vnum
  {
    forall y | y in s[1..] ensures y.vnum <= s[0].vnum {
      var k :| 0 <= k < |s[1..]| && s[1..][k] == y;
      assert s[k + 1] == y;
    }
  }

  lemma {:induction false} InsertByVnumSorted(x: VersionRow, s: seq<VersionRow>)
    requires SortedByVnumDesc(s)
    ensures SortedByVnumDesc(InsertByVnum(x, s))
  {
    var r := InsertByVnum(x, s);
    if s == [] || s[0].vnum < x.vnum {
      assert r == [x] + s;
      forall i, j | 0 <= i < j < |r| ensures r[i].vnum >= r[j].vnum {
        assert r[j] == s[j - 1];
        if i > 0 { assert r[i] == s[i - 1]; }
      }
    } else {
      var tail := s[1..];
      SortedTail(s);
      InsertByVnumSorted(x, tail);
      InsertByVnumMultiset(x, tail);
      var rest := InsertByVnum(x, tail);
      assert r == [s[0]] + rest;
      forall y | y in rest ensures y.vnum <= s[0].vnum {
        assert y in multiset(rest);
        if y != x { assert y in multiset(tail); }
      }
      forall i, j | 0 <= i < j < |r| ensures r[i].vnum >= r[j].vnum {
        assert r[j] == rest[j - 1];
        assert rest[j - 1] in rest;
        if i > 0 { assert r[i] == rest[i - 1]; }
      }
    }
  }

  /** The sort is a permutation of its input, in non-increasing vnum order. */
  lemma {:induction false} SortByVnumDescCorrect(s: seq<VersionRow>)
    ensures multiset(SortByVnumDesc(s)) == multiset(s)
    ensures SortedByVnumDesc(SortByVnumDesc(s))
  {
    if s != [] {
      SortByVnumDescCorrect(s[1..]);
      InsertByVnumMultiset(s[0], SortByVnumDesc(s[1..]));
      InsertByVnumSorted(s[0], SortByVnumDesc(s[1..]));
      assert [s[0]] + s[1..] == s;
    }
  }

  /** A possible result of `ORDER BY vnum DESC` over `rows`. */
  ghost predicate IsVnumDescOrder(sorted: seq<VersionRow>, rows: seq<VersionRow>)
  {
    multiset(sorted) == multiset(rows) && SortedByVnumDesc(sorted)
  }

  /** The first row of a vnum-descending order has the largest vnum. */
  lemma FirstHasMaxVnum(sorted: seq<VersionRow>, rows: seq<VersionRow>)
    requires IsVnumDescOrder(sorted, rows) && sorted != []
    ensures sorted[0] in rows
    ensures forall r :: r in rows ==> r.vnum <= sorted[0].vnum
  {
    assert sorted[0] in multiset(sorted);
    forall r | r in rows ensures r.vnum <= sorted[0].vnum {
      assert r in multiset(rows);
      assert r in sorted;
      var k :| 0 <= k < |sorted| && sorted[k] == r;
    }
  }

  // ---------------------------------------------------------------------
  // GROUP BY name, MAX(vnum) over the valid rows
  // ---------------------------------------------------------------------

  /** `SELECT MAX(vnum) ... WHERE valid = 1 ... GROUP BY name` for one name:
      None when the name has no valid row. */
  function MaxValidVnum(rows: seq<VersionRow>, name: string): (m: Option<uint64>)
    ensures m.None? <==> forall r :: r in rows ==> !(r.valid && r.name == name)
    ensures m.Some? ==> exists r :: r in rows && r.valid && r.name == name && r.vnum == m.value
    ensures m.Some? ==> forall r :: r in rows && r.valid && r.name == name ==> r.vnum <= m.value
  {
    if rows == [] then None
    else
      var rest := MaxValidVnum(rows[1..], name);
      assert forall r :: r in rows <==> r == rows[0] || r in rows[1..];
      if rows[0].valid && rows[0].name == name then
        Some(if rest.Some? && rest.value > rows[0].vnum then rest.value else rows[0].vnum)
      else rest
  }

  /** The inner join of the latest-versions query: every row, valid or not,
      whose vnum equals the maximum valid vnum of its name. */
  function LatestRows(rows: seq<VersionRow>): seq<VersionRow>
  {
    Where(rows, (r: VersionRow) => MaxValidVnum(rows, r.name) == Some(r.vnum))
  }

  /** Every row the latest-versions query returns carries the highest valid
      vnum of its name. */
  lemma LatestRowsAreMaximal(rows: seq<VersionRow>)
    ensures forall r :: r in LatestRows(rows) ==>
      r in rows && MaxValidVnum(rows, r.name) == Some(r.vnum)
      && (exists s :: s in rows && s.valid && s.name == r.name && s.vnum == r.vnum)
      && (forall s :: s in rows && s.valid && s.name == r.name ==> s.vnum <= r.vnum)
  {
  }

  /** A name appears in the latest-versions result exactly when it has at
      least one valid row. */
  lemma LatestRowsCoverNames(rows: seq<VersionRow>, name: string)
    ensures (exists r :: r in LatestRows(rows) && r.name == name) <==> (exists r :: r in rows && r.valid && r.name == name)
  {
    if m :| m in rows && m.valid && m.name == name {
      var max := MaxValidVnum(rows, name);
      var top :| top in rows && top.valid && top.name == name && top.vnum == max.value;
      assert top in LatestRows(rows);
    }
  }

  /** The join does not filter on valid: a pending row whose vnum ties the
      valid maximum ("1.2.0" beside a valid "1.2") is returned as well. */
  lemma LatestRowsMayIncludePending()
    ensures var valid := VersionRow("bosh", "1.2", 1_000_002_000_000, "abc", "u", true);
            var pending := PendingRow("bosh", "1.2.0", 1_000_002_000_000);
            var l := LatestRows([valid, pending]);
            valid in l && pending in l
  {
    var valid := VersionRow("bosh", "1.2", 1_000_002_000_000, "abc", "u", true);
    var pending := PendingRow("bosh", "1.2.0", 1_000_002_000_000);
    var rows := [valid, pending];
    assert MaxValidVnum(rows, "bosh") == Some(1_000_002_000_000);
  }

  // ---------------------------------------------------------------------
  // UPDATE
  // ---------------------------------------------------------------------

  /** `UPDATE ... SET valid = 1, url = $3, sha1 = $4 WHERE name = $1 AND version = $2`. */
  function MarkValid(rows: seq<VersionRow>, name: string, version: string, url: string, sha1: string): seq<VersionRow>
  {
    seq(|rows|, i requires 0 <= i < |rows| =>
      if Key(rows[i]) == (name, version) then rows[i].(valid := true, url := url, sha1 := sha1) else rows[i])
  }

  /** The success UPDATE changes no key, never demotes a valid row, leaves
      rows of other keys alone, and leaves the row of the key valid with the
      given url and digest. */
  lemma MarkValidEffect(rows: seq<VersionRow>, name: string, version: string, url: string, sha1: string)
    ensures var m := MarkValid(rows, name, version, url, sha1);
      && |m| == |rows|
      && (forall i :: 0 <= i < |rows| ==> Key(m[i]) == Key(rows[i]) && m[i].vnum == rows[i].vnum)
      && (forall i :: 0 <= i < |rows| && rows[i].valid ==> m[i].valid)
      && (forall i :: 0 <= i < |rows| && Key(rows[i]) != (name, version) ==> m[i] == rows[i])
      && (forall i :: 0 <= i < |rows| && Key(rows[i]) == (name, version) ==>
            m[i].valid && m[i].url == url && m[i].sha1 == sha1)
  {
  }

  /** After the success UPDATE on a present key, the key is listed. */
  lemma MarkValidMakesVisible(rows: seq<VersionRow>, name: string, version: string, url: string, sha1: string)
    requires HasKey(rows, name, version)
    ensures exists r :: (r in ValidRowsOf(MarkValid(rows, name, version, url, sha1), name)
      && r.version == version && r.url == url && r.sha1 == sha1)
  {
    var i :| 0 <= i < |rows| && Key(rows[i]) == (name, version);
    var m := MarkValid(rows, name, version, url, sha1);
    assert m[i] in m;
    assert m[i] in ValidRowsOf(m, name);
  }

  /** The success UPDATE on an absent key changes nothing. */
  lemma MarkValidAbsent(rows: seq<VersionRow>, name: string, version: string, url: string, sha1: string)
    requires !HasKey(rows, name, version)
    ensures MarkValid(rows, name, version, url, sha1) == rows
  {
  }

  lemma MarkValidKeepsUnique(rows: seq<VersionRow>, name: string, version: string, url: string, sha1: string)
    requires UniqueKeys(rows)
    ensures UniqueKeys(MarkValid(rows, name, version, url, sha1))
  {
    KeysPreservedKeepsUnique(rows, MarkValid(rows, name, version, url, sha1));
  }

  /** `UPDATE ... SET vnum = $1 WHERE name = $2 AND version = $3`. */
  function SetVnum(rows: seq<VersionRow>, name: string, version: string, vnum: uint64): seq<VersionRow>
  {
    seq(|rows|, i requires 0 <= i < |rows| => if Key(rows[i]) == (name, version) then rows[i].(vnum := vnum) else rows[i])
  }

  /** Under the UNIQUE constraint the vnum UPDATE by key touches exactly the
      row at the key's position. */
  lemma SetVnumAt(rows: seq<VersionRow>, i: nat, vnum: uint64)
    requires UniqueKeys(rows) && i < |rows|
    ensures SetVnum(rows, rows[i].name, rows[i].version, vnum) == rows[i := rows[i].(vnum := vnum)]
  {
    var s := SetVnum(rows, rows[i].name, rows[i].version, vnum);
    forall j | 0 <= j < |rows| ensures s[j] == rows[i := rows[i].(vnum := vnum)][j] {
      if j < i { assert Key(rows[j]) != Key(rows[i]); }
      if j > i { assert Key(rows[i]) != Key(rows[j]); }
    }
  }
}
