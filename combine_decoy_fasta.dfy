/**
 * `combine_fastas` of bin/combine_decoy_fasta.py. The families FASTA and
 * then the decoys FASTA are read record by record into one insertion-ordered
 * table from name to sequence. A record whose name is already in the table
 * is logged as a duplicate name. Otherwise a record whose sequence is already
 * in the table is logged as a duplicate sequence. Every other record enters
 * the table. The table is written out as FASTA text.
 */
module CombineDecoyFasta {
  import opened Common

  /**
   * The state `process_fasta` updates: the table `unique_sequences` as its
   * (name, sequence) entries in insertion order, and the two duplicate sets.
   */
  datatype Tally = Tally(unique: seq<(string, string)>, duplicateNames: set<string>, duplicateSequences: set<string>)

  const Empty := Tally([], {}, {})

  /** The keys of the table. */
  function Names(u: seq<(string, string)>): set<string>
  {
    set k | 0 <= k < |u| :: u[k].0
  }

  /** The values of the table. */
  function Sequences(u: seq<(string, string)>): set<string>
  {
    set k | 0 <= k < |u| :: u[k].1
  }

  /** What one record does to the state. */
  function Admit(t: Tally, r: Record): Tally
  {
    if r.id in Names(t.unique) then t.(duplicateNames := t.duplicateNames + {r.id})
    else if r.residues in Sequences(t.unique) then t.(duplicateSequences := t.duplicateSequences + {r.residues})
    else t.(unique := t.unique + [(r.id, r.residues)])
  }

  /** What a whole file of records does to the state, record after record. */
  function AdmitAll(t: Tally, rs: seq<Record>): Tally
  {
    if rs == [] then t else Admit(AdmitAll(t, rs[..|rs| - 1]), rs[|rs| - 1])
  }

  /**
   * The table's invariant: names are distinct, sequences are distinct, and
   * every logged duplicate is the name or the sequence of a kept entry.
   */
  ghost predicate Good(t: Tally)
  {
    && (forall j, j' :: 0 <= j < j' < |t.unique| ==> t.unique[j].0 != t.unique[j'].0)
    && (forall j, j' :: 0 <= j < j' < |t.unique| ==> t.unique[j].1 != t.unique[j'].1)
    && t.duplicateNames <= Names(t.unique)
    && t.duplicateSequences <= Sequences(t.unique)
  }

  /** `r` was kept, or its name or its sequence was logged as a duplicate. */
  ghost predicate Accounted(t: Tally, r: Record)
  {
    (r.id, r.residues) in t.unique || r.id in t.duplicateNames || r.residues in t.duplicateSequences
  }

  /** The state only grows: the table is extended at its end and the logs gain members. */
  ghost predicate Grows(t: Tally, t': Tally)
  {
    t.unique <= t'.unique && t.duplicateNames <= t'.duplicateNames && t.duplicateSequences <= t'.duplicateSequences
  }

  /** `process_fasta`: the loop over one file's records. */
  method ProcessFasta(rs: seq<Record>, t: Tally) returns (t': Tally)
    ensures t' == AdmitAll(t, rs)
  {
    t' := t;
    var i := 0;
    while i < |rs|
      invariant i <= |rs|
      invariant t' == AdmitAll(t, rs[..i])
    {
      assert rs[..i + 1][..i] == rs[..i];
      var r := rs[i];
      if r.id in Names(t'.unique) {
        t' := t'.(duplicateNames := t'.duplicateNames + {r.id});
      } else if r.residues in Sequences(t'.unique) {
        t' := t'.(duplicateSequences := t'.duplicateSequences + {r.residues});
      } else {
        t' := t'.(unique := t'.unique + [(r.id, r.residues)]);
      }
      i := i + 1;
    }
    assert rs[..i] == rs;
  }

  /**
   * `combine_fastas`: families first, then decoys. The returned table and
   * logs are those of the two files processed in that order, and `text` is
   * the table written out.
   */
  method CombineFastas(families: seq<Record>, decoys: seq<Record>) returns (t: Tally, text: string)
    ensures t == AdmitAll(AdmitAll(Empty, families), decoys)
    ensures text == FastaText(t.unique)
    ensures Good(t)
    ensures forall r :: r in families + decoys ==> Accounted(t, r)
    ensures AdmitAll(Empty, families).unique <= t.unique
  {
    var afterFamilies := ProcessFasta(families, Empty);
    t := ProcessFasta(decoys, afterFamilies);
    text := WriteFasta(t.unique);
    AdmitAllKeepsGood(Empty, families);
    AdmitAllKeepsGood(afterFamilies, decoys);
    AdmitAllAccounts(Empty, families);
    AdmitAllAccounts(afterFamilies, decoys);
    forall r | r in families + decoys ensures Accounted(t, r) {
      if r in families {
        AccountedGrows(afterFamilies, t, r);
      }
    }
  }

  /** One record keeps the invariant, lets the state only grow, and is accounted for. */
  lemma AdmitKeepsGood(t: Tally, r: Record)
    requires Good(t)
    ensures Good(Admit(t, r)) && Grows(t, Admit(t, r)) && Accounted(Admit(t, r), r)
  {
    var u := t.unique;
    if r.id !in Names(u) && r.residues !in Sequences(u) {
      var u' := u + [(r.id, r.residues)];
      forall j | 0 <= j < |u| ensures u'[j].0 != r.id && u'[j].1 != r.residues {
        assert u'[j] == u[j];
        assert u[j].0 in Names(u) && u[j].1 in Sequences(u);
      }
      assert forall j :: 0 <= j < |u| ==> u'[j] == u[j];
      assert u'[|u|] == (r.id, r.residues);
      assert Names(u') == Names(u) + {r.id};
      assert Sequences(u') == Sequences(u) + {r.residues};
    }
  }

  /** A whole file keeps the invariant and lets the state only grow. */
  lemma {:induction false} AdmitAllKeepsGood(t: Tally, rs: seq<Record>)
    requires Good(t)
    ensures Good(AdmitAll(t, rs)) && Grows(t, AdmitAll(t, rs))
  {
    if rs != [] {
      var init := rs[..|rs| - 1];
      AdmitAllKeepsGood(t, init);
      AdmitKeepsGood(AdmitAll(t, init), rs[|rs| - 1]);
    }
  }

  lemma AccountedGrows(t: Tally, t': Tally, r: Record)
    requires Grows(t, t') && Accounted(t, r)
    ensures Accounted(t', r)
  {
    if (r.id, r.residues) in t.unique {
      var k :| 0 <= k < |t.unique| && t.unique[k] == (r.id, r.residues);
      assert t'.unique[k] == t.unique[k];
    }
  }

  /** Every record of a file is kept or logged, and stays so. */
  lemma {:induction false} AdmitAllAccounts(t: Tally, rs: seq<Record>)
    requires Good(t)
    ensures forall r :: r in rs ==> Accounted(AdmitAll(t, rs), r)
  {
    if rs != [] {
      var init := rs[..|rs| - 1];
      var last := rs[|rs| - 1];
      AdmitAllAccounts(t, init);
      AdmitAllKeepsGood(t, init);
      var before := AdmitAll(t, init);
      AdmitKeepsGood(before, last);
      forall r | r in rs ensures Accounted(AdmitAll(t, rs), r) {
        if r != last {
          assert r in init;
          AccountedGrows(before, AdmitAll(t, rs), r);
        }
      }
    }
  }

  /**
   * The families win every clash: no decoy enters the table under a name or
   * with a sequence that a kept families record already has.
   */
  lemma FamiliesWin(families: seq<Record>, decoys: seq<Record>)
    ensures var f := AdmitAll(Empty, families).unique;
      var u := AdmitAll(AdmitAll(Empty, families), decoys).unique;
      f <= u &&
      forall j :: |f| <= j < |u| ==> u[j].0 !in Names(f) && u[j].1 !in Sequences(f)
  {
    var a := AdmitAll(Empty, families);
    var t := AdmitAll(a, decoys);
    AdmitAllKeepsGood(Empty, families);
    AdmitAllKeepsGood(a, decoys);
    var f := a.unique;
    var u := t.unique;
    forall j | |f| <= j < |u| ensures u[j].0 !in Names(f) && u[j].1 !in Sequences(f) {
      forall k | 0 <= k < |f| ensures u[j].0 != f[k].0 && u[j].1 != f[k].1 {
        assert u[k] == f[k];
      }
    }
  }
}
