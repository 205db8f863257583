/**
 * bin/calculate_db_sequence_coverage.py, without its file reading and its
 * percentages. The metadata gives the family ids of four member databases,
 * the original counts give the proteins that were hit, and for each
 * database the proteins of the families' alignments are gathered and
 * matched against the hit proteins.
 */
module CalculateDbSequenceCoverage {
  import opened Common

  /** The `db` and `dbkey` columns of one metadata row. */
  datatype MetaRow = MetaRow(db: string, dbkey: string)

  /** One file of an alignment folder: its name and the ids of its records, in order. */
  datatype Alignment = Alignment(filename: string, recordIds: seq<string>)

  /** One line of the output table, without its percentage. */
  datatype Stat = Stat(db: string, matched: nat, total: nat)

  /** The keys of `db_to_ids`, in the order they are written. */
  const Dbs: seq<string> := ["pfam", "hamap", "panther", "ncbifam"]

  /** `row["db"].strip().lower()`. */
  function NormDb(db: string): string
  {
    Lower(Strip(db))
  }

  /** `row["dbkey"].strip().split("/", 1)[0]`. */
  function NormKey(dbkey: string): (r: string)
    ensures '/' !in r && StartsWith(Strip(dbkey), r)
  {
    Before(Strip(dbkey), '/')
  }

  /** The family ids the first `n` metadata rows give database `db`. */
  ghost function IdsFor(rows: seq<MetaRow>, n: nat, db: string): set<string>
    requires n <= |rows|
  {
    set k | 0 <= k < n && NormDb(rows[k].db) == db :: NormKey(rows[k].dbkey)
  }

  /** One row more adds its id to its own database and to no other. */
  lemma IdsStep(rows: seq<MetaRow>, n: nat, db: string)
    requires n < |rows|
    ensures IdsFor(rows, n + 1, db) == IdsFor(rows, n, db) + (if NormDb(rows[n].db) == db then {NormKey(rows[n].dbkey)} else {})
  {
  }

  /** The keys of `db_to_ids`. */
  const DbNames: set<string> := {"pfam", "hamap", "panther", "ncbifam"}

  /** The map `load_metadata` holds after its first `n` rows. */
  ghost predicate Loaded(rows: seq<MetaRow>, n: nat, dbToIds: map<string, set<string>>)
    requires n <= |rows|
  {
    dbToIds.Keys == DbNames && forall db :: db in dbToIds ==> dbToIds[db] == IdsFor(rows, n, db)
  }

  /** One row of `load_metadata`: its id joins its database when that is one of the four. */
  method AddRow(rows: seq<MetaRow>, n: nat, dbToIds: map<string, set<string>>) returns (dbToIds': map<string, set<string>>)
    requires n < |rows| && Loaded(rows, n, dbToIds)
    ensures Loaded(rows, n + 1, dbToIds')
  {
    var db := NormDb(rows[n].db);
    var dbkey := NormKey(rows[n].dbkey);
    dbToIds' := dbToIds;
    if db in dbToIds {
      dbToIds' := dbToIds[db := dbToIds[db] + {dbkey}];
    }
    forall d | d in dbToIds'
      ensures dbToIds'[d] == IdsFor(rows, n + 1, d)
    {
      IdsStep(rows, n, d);
    }
  }

  /**
   * `load_metadata`: the four databases are always present, each with the
   * ids of its rows; rows of any other database are ignored.
   */
  method LoadMetadata(rows: seq<MetaRow>) returns (dbToIds: map<string, set<string>>)
    ensures dbToIds.Keys == DbNames
    ensures forall db :: db in dbToIds ==> dbToIds[db] == IdsFor(rows, |rows|, db)
  {
    dbToIds := map["pfam" := {}, "hamap" := {}, "panther" := {}, "ncbifam" := {}];
    for i := 0 to |rows|
      invariant Loaded(rows, i, dbToIds)
    {
      dbToIds := AddRow(rows, i, dbToIds);
    }
  }

  /**
   * The protein a line of the original counts names: none for a blank line
   * or one starting with `Original`, otherwise the first of exactly two tab
   * fields when the second is a positive decimal count.
   */
  function HitName(line: string): (r: Option<string>)
    ensures r.Some? ==> !AllSpace(line) && !StartsWith(line, "Original") && '\t' !in r.value
  {
    var body := Strip(line);
    if body == [] || StartsWith(line, "Original") then None
    else
      var parts := Split(body, '\t');
      if |parts| == 2 && IsDigits(parts[1]) && DigitsValue(parts[1]) > 0 then Some(parts[0]) else None
  }

  /** Every protein the first `n` lines of the original counts name. */
  ghost function FoundOf(lines: seq<string>, n: nat): set<string>
    requires n <= |lines|
  {
    set k | 0 <= k < n && HitName(lines[k]).Some? :: HitName(lines[k]).value
  }

  /** A count field of zeros names nothing, whatever else the line holds. */
  lemma ZeroCountNamesNothing(line: string, name: string, count: string)
    requires !AllSpace(line) && !StartsWith(line, "Original")
    requires Strip(line) == name + "\t" + count && '\t' !in name && '\t' !in count
    requires IsDigits(count) && forall i :: 0 <= i < |count| ==> count[i] == '0'
    ensures HitName(line) == None
  {
    var parts := Split(Strip(line), '\t');
    SplitTwo(name, count);
  }

  /** A line of two tab-free fields splits into exactly those two fields. */
  lemma SplitTwo(a: string, b: string)
    requires '\t' !in a && '\t' !in b
    ensures Split(a + "\t" + b, '\t') == [a, b]
  {
    var s := a + "\t" + b;
    IndexOfFirst(a, b);
    assert s[..|a|] == a;
    assert s[|a| + 1..] == b;
    assert IndexOf(b, '\t') == |b|;
  }

  /**
   * A line names `n` exactly when it is not blank, does not start with
   * `Original`, and its stripped text is `n`, a tab and a positive count
   * of decimal digits, with no other tab.
   */
  lemma HitNameMeans(line: string, n: string)
    ensures HitName(line) == Some(n) <==>
      !AllSpace(line) && !StartsWith(line, "Original") &&
      exists c :: Strip(line) == n + "\t" + c && '\t' !in n && '\t' !in c && IsDigits(c) && DigitsValue(c) > 0
  {
    var body := Strip(line);
    if HitName(line) == Some(n) {
      var parts := Split(body, '\t');
      assert |parts| == 2 && parts[0] == n;
      assert Join(parts, '\t') == n + "\t" + parts[1];
      assert body == n + "\t" + parts[1];
    }
    if !AllSpace(line) && !StartsWith(line, "Original") &&
      exists c :: body == n + "\t" + c && '\t' !in n && '\t' !in c && IsDigits(c) && DigitsValue(c) > 0
    {
      var c :| body == n + "\t" + c && '\t' !in n && '\t' !in c && IsDigits(c) && DigitsValue(c) > 0;
      SplitTwo(n, c);
    }
  }

  /** The first tab of `a + "\t" + b` is the one between the fields when `a` has none. */
  lemma IndexOfFirst(a: string, b: string)
    requires '\t' !in a
    ensures IndexOf(a + "\t" + b, '\t') == |a|
  {
    var s := a + "\t" + b;
    assert s[|a|] == '\t';
    assert s[..|a|] == a;
  }

  /** One line more adds the protein it names, if any. */
  lemma FoundStep(lines: seq<string>, n: nat)
    requires n < |lines|
    ensures FoundOf(lines, n + 1) == FoundOf(lines, n) + (if HitName(lines[n]).Some? then {HitName(lines[n]).value} else {})
  {
  }

  /** `load_original_hits`. */
  method LoadOriginalHits(lines: seq<string>) returns (found: set<string>)
    ensures found == FoundOf(lines, |lines|)
  {
    found := {};
    for i := 0 to |lines|
      invariant found == FoundOf(lines, i)
    {
      var name := HitName(lines[i]);
      FoundStep(lines, i);
      if name.Some? {
        found := found + {name.value};
      }
    }
  }

  /** `extract_protein_ids_from_alignment`: the record ids cut at their first `/`. */
  ghost function ProteinIds(a: Alignment): set<string>
  {
    set k | 0 <= k < |a.recordIds| :: Before(a.recordIds[k], '/')
  }

  /** The ids of one alignment, gathered record by record. */
  method ExtractProteinIds(a: Alignment) returns (ids: set<string>)
    ensures ids == ProteinIds(a)
    ensures forall x :: x in ids ==> '/' !in x
  {
    ids := {};
    for k := 0 to |a.recordIds|
      invariant ids == set j | 0 <= j < k :: Before(a.recordIds[j], '/')
    {
      ids := ids + {Before(a.recordIds[k], '/')};
    }
  }

  /** The position of the first file of the listing whose name starts with `familyId`. */
  function FirstMatch(listing: seq<Alignment>, familyId: string): (r: Option<nat>)
    ensures r.Some? ==> r.value < |listing| && StartsWith(listing[r.value].filename, familyId)
    ensures r.Some? ==> forall j :: 0 <= j < r.value ==> !StartsWith(listing[j].filename, familyId)
    ensures r.None? ==> forall j :: 0 <= j < |listing| ==> !StartsWith(listing[j].filename, familyId)
  {
    if listing == [] then None
    else if StartsWith(listing[0].filename, familyId) then Some(0)
    else
      var r := FirstMatch(listing[1..], familyId);
      if r.Some? then Some(r.value + 1) else None
  }

  /** The proteins of the alignment the family `familyId` takes, if any. */
  ghost function FamilySet(listing: seq<Alignment>, familyId: string): set<string>
  {
    var f := FirstMatch(listing, familyId);
    if f.Some? then ProteinIds(listing[f.value]) else {}
  }

  /** The inner loop over the listing: the first matching file only. */
  method FamilyProteins(listing: seq<Alignment>, familyId: string) returns (ids: set<string>)
    ensures ids == FamilySet(listing, familyId)
  {
    ids := {};
    for j := 0 to |listing|
      invariant forall i :: 0 <= i < j ==> !StartsWith(listing[i].filename, familyId)
    {
      if StartsWith(listing[j].filename, familyId) {
        ids := ExtractProteinIds(listing[j]);
        assert FirstMatch(listing, familyId) == Some(j);
        return;
      }
    }
  }

  /** Every protein of the first matching alignment of each family of `ids`. */
  ghost function Gathered(ids: set<string>, listing: seq<Alignment>): set<string>
  {
    set id, x | id in ids && x in FamilySet(listing, id) :: x
  }

  /**
   * `total_unique` for one database. The families are a set, taken in
   * whatever order, which does not change the union.
   */
  method TotalUnique(ids: set<string>, listing: seq<Alignment>) returns (total: set<string>)
    ensures total == Gathered(ids, listing)
  {
    total := {};
    var rest := ids;
    while rest != {}
      invariant rest <= ids
      invariant total == Gathered(ids - rest, listing)
      decreases rest
    {
      var familyId :| familyId in rest;
      var proteins := FamilyProteins(listing, familyId);
      GatheredGrow(ids - rest, familyId, listing);
      assert ids - (rest - {familyId}) == (ids - rest) + {familyId};
      total := total + proteins;
      rest := rest - {familyId};
    }
    assert ids - rest == ids;
  }

  /** One family more adds the proteins of its alignment. */
  lemma GatheredGrow(done: set<string>, familyId: string, listing: seq<Alignment>)
    ensures Gathered(done + {familyId}, listing) == Gathered(done, listing) + FamilySet(listing, familyId)
  {
  }

  /** What `compute_match_stats` writes for one database, or nothing when it found no proteins. */
  function StatOf(db: string, total: set<string>, found: set<string>): (r: Option<Stat>)
    ensures r.Some? <==> total != {}
    ensures r.Some? ==> r.value.db == db && r.value.total == |total| && r.value.matched == |total * found|
  {
    if total == {} then None else Some(Stat(db, |total * found|, |total|))
  }

  /** The matched proteins are among the proteins gathered, so a row never claims more matches than proteins. */
  lemma MatchedWithinTotal(db: string, total: set<string>, found: set<string>)
    requires total != {}
    ensures 1 <= StatOf(db, total, found).value.total
    ensures StatOf(db, total, found).value.matched <= StatOf(db, total, found).value.total
  {
    assert total == (total * found) + (total - found);
  }

  /** The proteins `total_unique` gathers for each database both maps know. */
  ghost function Totals(dbToIds: map<string, set<string>>, folders: map<string, seq<Alignment>>): map<string, set<string>>
  {
    map db | db in dbToIds && db in folders :: Gathered(dbToIds[db], folders[db])
  }

  /** The rows written for the databases `dbs`, in order, given what each one gathered. */
  function Stats(dbs: seq<string>, totals: map<string, set<string>>, found: set<string>): seq<Stat>
    requires forall k :: 0 <= k < |dbs| ==> dbs[k] in totals
  {
    if dbs == [] then []
    else
      var db := dbs[|dbs| - 1];
      var stat := StatOf(db, totals[db], found);
      Stats(dbs[..|dbs| - 1], totals, found) + (if stat.Some? then [stat.value] else [])
  }

  /** The loop of `compute_match_stats` over one database more. */
  lemma StatsStep(dbs: seq<string>, d: nat, totals: map<string, set<string>>, found: set<string>)
    requires d < |dbs| && forall k :: 0 <= k < |dbs| ==> dbs[k] in totals
    ensures Stats(dbs[..d + 1], totals, found) ==
      Stats(dbs[..d], totals, found) + (var stat := StatOf(dbs[d], totals[dbs[d]], found); if stat.Some? then [stat.value] else [])
  {
    assert dbs[..d + 1][..d] == dbs[..d];
  }

  /**
   * `compute_match_stats` without its file writes: for each database in
   * the order of `Dbs`, a row when its families gave some protein.
   */
  method ComputeMatchStats(dbToIds: map<string, set<string>>, folders: map<string, seq<Alignment>>, found: set<string>)
    returns (stats: seq<Stat>)
    requires forall k :: 0 <= k < |Dbs| ==> Dbs[k] in dbToIds && Dbs[k] in folders
    ensures stats == Stats(Dbs, Totals(dbToIds, folders), found)
  {
    ghost var totals := Totals(dbToIds, folders);
    stats := [];
    for d := 0 to |Dbs|
      invariant stats == Stats(Dbs[..d], totals, found)
    {
      var db := Dbs[d];
      var total := TotalUnique(dbToIds[db], folders[db]);
      StatsStep(Dbs, d, totals, found);
      var stat := StatOf(db, total, found);
      if stat.Some? {
        stats := stats + [stat.value];
      }
    }
    assert Dbs[..|Dbs|] == Dbs;
  }

  /**
   * Every row names one of the databases, counts the proteins it gathered,
   * at least one, and claims no more matches than proteins.
   */
  lemma {:induction false} StatsRows(dbs: seq<string>, totals: map<string, set<string>>, found: set<string>)
    requires forall k :: 0 <= k < |dbs| ==> dbs[k] in totals
    ensures var stats := Stats(dbs, totals, found);
      && |stats| <= |dbs|
      && (forall j :: 0 <= j < |stats| ==> 1 <= stats[j].total && stats[j].matched <= stats[j].total)
      && (forall j :: 0 <= j < |stats| ==> stats[j].db in dbs && stats[j].total == |totals[stats[j].db]|)
  {
    if dbs != [] {
      var n := |dbs| - 1;
      StatsRows(dbs[..n], totals, found);
      assert forall k :: 0 <= k < n ==> dbs[..n][k] == dbs[k];
      if totals[dbs[n]] != {} {
        MatchedWithinTotal(dbs[n], totals[dbs[n]], found);
      }
    }
  }

  /** A database not in the list has no row. */
  lemma NoRowOutside(dbs: seq<string>, totals: map<string, set<string>>, found: set<string>, db: string)
    requires forall k :: 0 <= k < |dbs| ==> dbs[k] in totals
    requires db !in dbs
    ensures var stats := Stats(dbs, totals, found);
      forall j :: 0 <= j < |stats| ==> stats[j].db != db
  {
    StatsRows(dbs, totals, found);
  }

  /** The rows for one database more: the earlier rows, then a row for it exactly when it gathered something. */
  lemma StatsLast(dbs: seq<string>, totals: map<string, set<string>>, found: set<string>)
    requires dbs != [] && forall k :: 0 <= k < |dbs| ==> dbs[k] in totals
    ensures var n := |dbs| - 1;
      var before := Stats(dbs[..n], totals, found);
      var stats := Stats(dbs, totals, found);
      && (forall j :: 0 <= j < |before| ==> j < |stats| && stats[j] == before[j])
      && (totals[dbs[n]] == {} ==> stats == before)
      && (totals[dbs[n]] != {} ==> |stats| == |before| + 1 && stats[|before|].db == dbs[n])
  {
  }

  /** With the databases named once each, no two rows name the same database. */
  lemma {:induction false} StatsDistinct(dbs: seq<string>, totals: map<string, set<string>>, found: set<string>)
    requires forall k :: 0 <= k < |dbs| ==> dbs[k] in totals
    requires forall k, k' :: 0 <= k < k' < |dbs| ==> dbs[k] != dbs[k']
    ensures var stats := Stats(dbs, totals, found);
      forall j, j' :: 0 <= j < j' < |stats| ==> stats[j].db != stats[j'].db
  {
    if dbs != [] {
      var n := |dbs| - 1;
      var init := dbs[..n];
      StatsDistinct(init, totals, found);
      assert dbs[n] !in init by {
        forall k | 0 <= k < n ensures init[k] != dbs[n] {
          assert init[k] == dbs[k];
        }
      }
      NoRowOutside(init, totals, found, dbs[n]);
      StatsLast(dbs, totals, found);
      var before := Stats(init, totals, found);
      var stats := Stats(dbs, totals, found);
      forall j, j' | 0 <= j < j' < |stats| ensures stats[j].db != stats[j'].db {
        if j' < |before| {
          assert stats[j] == before[j] && stats[j'] == before[j'];
        } else {
          assert stats[j'].db == dbs[n] && stats[j] == before[j];
        }
      }
    }
  }

  /**
   * With the databases named once each, a database of the list has a row
   * exactly when its families gave some protein.
   */
  lemma {:induction false} StatsHasRow(dbs: seq<string>, totals: map<string, set<string>>, found: set<string>, db: string)
    requires forall k :: 0 <= k < |dbs| ==> dbs[k] in totals
    requires forall k, k' :: 0 <= k < k' < |dbs| ==> dbs[k] != dbs[k']
    requires db in dbs
    ensures var stats := Stats(dbs, totals, found);
      totals[db] != {} <==> exists j :: 0 <= j < |stats| && stats[j].db == db
  {
    var n := |dbs| - 1;
    var init := dbs[..n];
    var before := Stats(init, totals, found);
    var stats := Stats(dbs, totals, found);
    StatsLast(dbs, totals, found);
    if db == dbs[n] {
      assert db !in init by {
        forall k | 0 <= k < n ensures init[k] != db {
          assert init[k] == dbs[k];
        }
      }
      NoRowOutside(init, totals, found, db);
      if totals[db] != {} {
        assert stats[|before|].db == db;
      } else {
        forall j | 0 <= j < |stats| ensures stats[j].db != db {
          assert stats[j] == before[j];
        }
      }
    } else {
      var k :| 0 <= k < |dbs| && dbs[k] == db;
      assert init[k] == db;
      StatsHasRow(init, totals, found, db);
      if totals[db] != {} {
        var j :| 0 <= j < |before| && before[j].db == db;
        assert stats[j].db == db;
      } else {
        forall j | 0 <= j < |stats| ensures stats[j].db != db {
          if j < |before| {
            assert stats[j] == before[j];
          } else {
            assert stats[j].db == dbs[n];
          }
        }
      }
    }
  }

  /** `Dbs` names each key of `db_to_ids` exactly once. */
  lemma DbsNamesEachOnce()
    ensures forall db :: db in DbNames <==> db in Dbs
    ensures forall k, k' :: 0 <= k < k' < |Dbs| ==> Dbs[k] != Dbs[k']
  {
  }

  /**
   * `main` without its file handling: `folders` holds the file listing and
   * the alignments of each database's folder. The table has a row exactly
   * for the databases whose families gave some protein, once each, and
   * every row counts at least one protein and no more matches than proteins.
   */
  method MatchStatsTable(metaRows: seq<MetaRow>, countLines: seq<string>, folders: map<string, seq<Alignment>>)
    returns (dbToIds: map<string, set<string>>, found: set<string>, stats: seq<Stat>)
    requires DbNames <= folders.Keys
    ensures dbToIds.Keys == DbNames && forall db :: db in dbToIds ==> dbToIds[db] == IdsFor(metaRows, |metaRows|, db)
    ensures found == FoundOf(countLines, |countLines|)
    ensures stats == Stats(Dbs, Totals(dbToIds, folders), found)
    ensures forall j :: 0 <= j < |stats| ==> stats[j].db in DbNames && 1 <= stats[j].total && stats[j].matched <= stats[j].total
    ensures forall j, j' :: 0 <= j < j' < |stats| ==> stats[j].db != stats[j'].db
    ensures forall db :: db in DbNames ==>
      (Gathered(dbToIds[db], folders[db]) != {} <==> exists j :: 0 <= j < |stats| && stats[j].db == db)
  {
    dbToIds := LoadMetadata(metaRows);
    found := LoadOriginalHits(countLines);
    DbsNamesEachOnce();
    stats := ComputeMatchStats(dbToIds, folders, found);
    ghost var totals := Totals(dbToIds, folders);
    StatsRows(Dbs, totals, found);
    StatsDistinct(Dbs, totals, found);
    forall db | db in DbNames
      ensures Gathered(dbToIds[db], folders[db]) != {} <==> exists j :: 0 <= j < |stats| && stats[j].db == db
    {
      StatsHasRow(Dbs, totals, found, db);
    }
  }
}
