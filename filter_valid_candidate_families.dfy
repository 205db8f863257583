/**
 * bin/filter_valid_candidate_families.py. Four metadata tables map a family
 * id to its number of proteins, one table per member database. An InterPro
 * row survives when its database is one of the four and its `dbkey` is an
 * id of that database's table; its `protein_count` then becomes the table's
 * value, and every other column is left as it was.
 */
module FilterValidCandidateFamilies {
  import opened Common

  /** One row of the InterPro table: the two key columns, `protein_count`, and the other columns in order. */
  datatype Row = Row(db: string, dbkey: string, proteinCount: string, others: seq<string>)

  /** One row of a metadata table: its `id` and `num_proteins` columns. */
  datatype MetaRow = MetaRow(id: string, numProteins: string)

  /** `df.set_index("id")["num_proteins"].to_dict()`: for a repeated id the last row wins. */
  function Lookup(rows: seq<MetaRow>): map<string, string>
  {
    if rows == [] then map[]
    else
      var last := rows[|rows| - 1];
      Lookup(rows[..|rows| - 1])[last.id := last.numProteins]
  }

  /** Row `k` is the last row with its id. */
  predicate LastOfId(rows: seq<MetaRow>, k: nat)
    requires k < |rows|
  {
    forall j :: k < j < |rows| ==> rows[j].id != rows[k].id
  }

  /** The table has one key per id of the rows. */
  lemma {:induction false} LookupKeys(rows: seq<MetaRow>)
    ensures Lookup(rows).Keys == set k | 0 <= k < |rows| :: rows[k].id
  {
    if rows != [] {
      var init := rows[..|rows| - 1];
      LookupKeys(init);
      assert forall k :: 0 <= k < |init| ==> init[k] == rows[k];
      assert (set k | 0 <= k < |rows| :: rows[k].id) == (set k | 0 <= k < |init| :: init[k].id) + {rows[|rows| - 1].id};
    }
  }

  /** Each id maps to the value of the last row with that id. */
  lemma {:induction false} LookupLastWins(rows: seq<MetaRow>)
    ensures forall k {:trigger LastOfId(rows, k)} :: 0 <= k < |rows| && LastOfId(rows, k) ==>
      rows[k].id in Lookup(rows) && Lookup(rows)[rows[k].id] == rows[k].numProteins
  {
    if rows != [] {
      var n := |rows| - 1;
      var init := rows[..n];
      LookupLastWins(init);
      forall k | 0 <= k < |rows| && LastOfId(rows, k)
        ensures rows[k].id in Lookup(rows) && Lookup(rows)[rows[k].id] == rows[k].numProteins
      {
        if k < n {
          assert rows[k].id != rows[n].id;
          assert init[k] == rows[k];
          assert LastOfId(init, k) by {
            forall j | k < j < n ensures init[j].id != init[k].id {
              assert init[j] == rows[j];
            }
          }
        }
      }
    }
  }

  /** `load_metadata`, as the loop that fills the dictionary row by row. */
  method LoadMetadata(rows: seq<MetaRow>) returns (table: map<string, string>)
    ensures table == Lookup(rows)
  {
    table := map[];
    for i := 0 to |rows|
      invariant table == Lookup(rows[..i])
    {
      assert rows[..i + 1][..i] == rows[..i];
      table := table[rows[i].id := rows[i].numProteins];
    }
    assert rows[..|rows|] == rows;
  }

  /** The database names `main` keys the metadata by, exactly as written. */
  const Databases: set<string> := {"HAMAP", "NCBIFAM", "PANTHER", "PFAM"}

  /** The `metadata` dictionary of `main`. */
  method BuildMetadata(hamap: seq<MetaRow>, ncbifam: seq<MetaRow>, panther: seq<MetaRow>, pfam: seq<MetaRow>)
    returns (metadata: map<string, map<string, string>>)
    ensures metadata.Keys == Databases
    ensures metadata["HAMAP"] == Lookup(hamap) && metadata["NCBIFAM"] == Lookup(ncbifam)
    ensures metadata["PANTHER"] == Lookup(panther) && metadata["PFAM"] == Lookup(pfam)
  {
    var h := LoadMetadata(hamap);
    var n := LoadMetadata(ncbifam);
    var pa := LoadMetadata(panther);
    var pf := LoadMetadata(pfam);
    metadata := map["HAMAP" := h, "NCBIFAM" := n, "PANTHER" := pa, "PFAM" := pf];
  }

  /** `db in metadata and dbkey in metadata[db]`. */
  predicate Valid(row: Row, metadata: map<string, map<string, string>>)
  {
    row.db in metadata && row.dbkey in metadata[row.db]
  }

  /** A valid row with `protein_count` taken from the metadata. */
  function Updated(row: Row, metadata: map<string, map<string, string>>): (r: Row)
    requires Valid(row, metadata)
    ensures r.db == row.db && r.dbkey == row.dbkey && r.others == row.others
    ensures r.proteinCount == metadata[row.db][row.dbkey]
  {
    row.(proteinCount := metadata[row.db][row.dbkey])
  }

  /** The rows the filter keeps, updated, in input order. */
  function Filtered(rows: seq<Row>, metadata: map<string, map<string, string>>): seq<Row>
  {
    if rows == [] then []
    else
      var last := rows[|rows| - 1];
      Filtered(rows[..|rows| - 1], metadata) + (if Valid(last, metadata) then [Updated(last, metadata)] else [])
  }

  /** The row loop of `main`. */
  method FilterRows(rows: seq<Row>, metadata: map<string, map<string, string>>) returns (validRows: seq<Row>)
    ensures validRows == Filtered(rows, metadata)
  {
    validRows := [];
    for i := 0 to |rows|
      invariant validRows == Filtered(rows[..i], metadata)
    {
      assert rows[..i + 1][..i] == rows[..i];
      var row := rows[i];
      if row.db in metadata && row.dbkey in metadata[row.db] {
        validRows := validRows + [row.(proteinCount := metadata[row.db][row.dbkey])];
      }
    }
    assert rows[..|rows|] == rows;
  }

  /** The filter keeps the input order: filtering two parts one after the other is filtering the whole. */
  lemma {:induction false} FilteredAppend(a: seq<Row>, b: seq<Row>, metadata: map<string, map<string, string>>)
    ensures Filtered(a + b, metadata) == Filtered(a, metadata) + Filtered(b, metadata)
  {
    if b != [] {
      var init := b[..|b| - 1];
      FilteredAppend(a, init, metadata);
      assert (a + b)[..|a + b| - 1] == a + init;
    } else {
      assert a + b == a;
    }
  }

  /**
   * What the filter keeps: exactly one updated row per valid input row, so
   * every output row is valid, carries the metadata's protein count and
   * comes from an input row that agrees with it on every other column.
   */
  lemma {:induction false} FilteredMeans(rows: seq<Row>, metadata: map<string, map<string, string>>)
    ensures |Filtered(rows, metadata)| == CountWhere(rows, (row: Row) => Valid(row, metadata))
    ensures forall r :: r in Filtered(rows, metadata) ==>
      Valid(r, metadata) && r.proteinCount == metadata[r.db][r.dbkey] &&
      exists k :: 0 <= k < |rows| && Valid(rows[k], metadata) && r == Updated(rows[k], metadata)
    ensures forall k :: 0 <= k < |rows| && Valid(rows[k], metadata) ==> Updated(rows[k], metadata) in Filtered(rows, metadata)
  {
    if rows != [] {
      var init := rows[..|rows| - 1];
      var last := rows[|rows| - 1];
      FilteredMeans(init, metadata);
      assert forall k :: 0 <= k < |init| ==> init[k] == rows[k];
      forall r | r in Filtered(rows, metadata)
        ensures exists k :: 0 <= k < |rows| && Valid(rows[k], metadata) && r == Updated(rows[k], metadata)
      {
        if r !in Filtered(init, metadata) {
          assert Valid(rows[|rows| - 1], metadata) && r == Updated(rows[|rows| - 1], metadata);
        }
      }
    }
  }

  /** Only rows of the four databases can survive, spelled exactly as the metadata keys. */
  lemma OnlyKnownDatabases(rows: seq<Row>, metadata: map<string, map<string, string>>)
    requires metadata.Keys == Databases
    ensures forall r :: r in Filtered(rows, metadata) ==> r.db in Databases
  {
    FilteredMeans(rows, metadata);
  }

  /** `main` without its file reading and writing: the metadata, then the filtered rows. */
  method FilterValidCandidates(interpro: seq<Row>, hamap: seq<MetaRow>, ncbifam: seq<MetaRow>,
                               panther: seq<MetaRow>, pfam: seq<MetaRow>)
    returns (validRows: seq<Row>)
    ensures forall r :: r in validRows ==> r.db in Databases
    ensures forall r :: r in validRows && r.db == "PFAM" ==> r.dbkey in Lookup(pfam) && r.proteinCount == Lookup(pfam)[r.dbkey]
    ensures validRows == Filtered(interpro, map["HAMAP" := Lookup(hamap), "NCBIFAM" := Lookup(ncbifam),
                                               "PANTHER" := Lookup(panther), "PFAM" := Lookup(pfam)])
  {
    var metadata := BuildMetadata(hamap, ncbifam, panther, pfam);
    validRows := FilterRows(interpro, metadata);
    FilteredMeans(interpro, metadata);
    assert metadata == map["HAMAP" := Lookup(hamap), "NCBIFAM" := Lookup(ncbifam),
                           "PANTHER" := Lookup(panther), "PFAM" := Lookup(pfam)];
  }
}
