/**
 * The merge loop of bin/combine_db_fasta.py. Every record of every database
 * FASTA file is counted. A record whose id was seen before is dropped. A
 * record whose residues repeat those of an earlier kept record is still
 * kept, and only counted as a sequence duplicate.
 */
module CombineDbFasta {
  import opened Common

  /** A parsed record with the name of the file it came from. */
  datatype Sourced = Sourced(file: string, record: Record)

  /** What the loop leaves behind: the kept records, three counters and the two lookup tables. */
  datatype Merged = Merged(
    finalRecords: seq<Record>,
    totalCount: nat,
    nameDups: nat,
    seqDups: nat,
    seenIds: map<string, string>,
    seenSeqs: map<string, (string, string)>)

  /** Position `k` holds the first record carrying its id. */
  predicate FirstOfId(s: seq<Sourced>, k: nat)
    requires k < |s|
  {
    forall j :: 0 <= j < k ==> s[j].record.id != s[k].record.id
  }

  /** The positions of the records that survive the name check, in input order. */
  function KeptAt(s: seq<Sourced>): (ks: seq<nat>)
    ensures forall j :: 0 <= j < |ks| ==> ks[j] < |s|
  {
    if s == [] then []
    else if FirstOfId(s, |s| - 1) then KeptAt(s[..|s| - 1]) + [|s| - 1]
    else KeptAt(s[..|s| - 1])
  }

  /** The records at positions `ks`. */
  function Picked(s: seq<Sourced>, ks: seq<nat>): (r: seq<Record>)
    requires forall j :: 0 <= j < |ks| ==> ks[j] < |s|
    ensures |r| == |ks|
  {
    seq(|ks|, j requires 0 <= j < |ks| => s[ks[j]].record)
  }

  ghost function IdsOf(s: seq<Sourced>): set<string>
  {
    set k | 0 <= k < |s| :: s[k].record.id
  }

  ghost function ResiduesOf(rs: seq<Record>): set<string>
  {
    set j | 0 <= j < |rs| :: rs[j].residues
  }

  /** Record `j` is the first of `rs` with its residues. */
  predicate FirstOfResidues(rs: seq<Record>, j: nat)
    requires j < |rs|
  {
    forall i :: 0 <= i < j ==> rs[i].residues != rs[j].residues
  }

  /** How many records of `rs` repeat the residues of an earlier one. */
  function DupCount(rs: seq<Record>): nat
  {
    if rs == [] then 0
    else DupCount(rs[..|rs| - 1]) + (if FirstOfResidues(rs, |rs| - 1) then 0 else 1)
  }

  /** The id table after the first `i` records: every id seen so far, with the file of its first record. */
  ghost predicate IdTable(s: seq<Sourced>, i: nat, seenIds: map<string, string>)
    requires i <= |s|
  {
    && seenIds.Keys == IdsOf(s[..i])
    && forall k {:trigger FirstOfId(s, k)} :: 0 <= k < i && FirstOfId(s, k) ==> seenIds[s[k].record.id] == s[k].file
  }

  /**
   * The sequence table for the kept records `rs` taken from positions `ks`:
   * the duplicate counter, and every kept sequence mapped to the id and
   * file of the first kept record carrying it.
   */
  ghost predicate SeqTable(s: seq<Sourced>, ks: seq<nat>, rs: seq<Record>, seqDups: nat, seenSeqs: map<string, (string, string)>)
    requires |ks| == |rs| && forall j :: 0 <= j < |ks| ==> ks[j] < |s|
  {
    && seqDups == DupCount(rs)
    && seenSeqs.Keys == ResiduesOf(rs)
    && forall j {:trigger FirstOfResidues(rs, j)} :: 0 <= j < |rs| && FirstOfResidues(rs, j) ==> seenSeqs[rs[j].residues] == (rs[j].id, s[ks[j]].file)
  }

  /** What holds after the loop has taken the first `i` records. */
  ghost predicate Progress(s: seq<Sourced>, i: nat, ks: seq<nat>, m: Merged)
    requires i <= |s|
  {
    && ks == KeptAt(s[..i])
    && m.finalRecords == Picked(s, ks)
    && m.totalCount == i
    && m.totalCount == m.nameDups + |m.finalRecords|
    && IdTable(s, i, m.seenIds)
    && SeqTable(s, ks, m.finalRecords, m.seqDups, m.seenSeqs)
  }

  /**
   * The loop of `main`, over the records of all files in the order they are
   * read. `seenIds` maps an id to the file of its first record; `seenSeqs`
   * maps residues to the id and file of the first kept record carrying them.
   */
  method CombineRecords(s: seq<Sourced>) returns (m: Merged)
    ensures m.totalCount == |s|
    ensures m.finalRecords == Picked(s, KeptAt(s))
    ensures m.totalCount == m.nameDups + |m.finalRecords|
    ensures m.seqDups == DupCount(m.finalRecords)
    ensures m.seenIds.Keys == IdsOf(s)
    ensures forall k {:trigger FirstOfId(s, k)} :: 0 <= k < |s| && FirstOfId(s, k) ==> m.seenIds[s[k].record.id] == s[k].file
    ensures m.seenSeqs.Keys == ResiduesOf(m.finalRecords)
    ensures forall j {:trigger FirstOfResidues(m.finalRecords, j)} :: 0 <= j < |m.finalRecords| && FirstOfResidues(m.finalRecords, j) ==>
      m.seenSeqs[m.finalRecords[j].residues] == (m.finalRecords[j].id, s[KeptAt(s)[j]].file)
  {
    m := Merged([], 0, 0, 0, map[], map[]);
    ghost var ks: seq<nat> := [];
    var i := 0;
    while i < |s|
      invariant i <= |s|
      invariant Progress(s, i, ks, m)
    {
      ks, m := Absorb(s, i, ks, m);
      i := i + 1;
    }
    assert s[..i] == s;
  }

  /** One turn of the loop: the record at position `i` is counted, then dropped or kept. */
  method Absorb(s: seq<Sourced>, i: nat, ghost ks: seq<nat>, m: Merged) returns (ghost ks': seq<nat>, m': Merged)
    requires i < |s| && Progress(s, i, ks, m)
    ensures Progress(s, i + 1, ks', m')
  {
    var sourced := s[i];
    var record := sourced.record;
    KeptAtStep(s, i);
    if record.id in m.seenIds {
      IdTableSkip(s, i, m.seenIds);
      ks' := ks;
      m' := m.(totalCount := m.totalCount + 1, nameDups := m.nameDups + 1);
    } else {
      ks' := ks + [i];
      m' := Keep(s, i, ks, m);
    }
  }

  /** The record at position `i` carries a fresh id: it is kept, and its sequence is either new or counted. */
  method Keep(s: seq<Sourced>, i: nat, ghost ks: seq<nat>, m: Merged) returns (m': Merged)
    requires i < |s| && Progress(s, i, ks, m) && s[i].record.id !in m.seenIds
    ensures Progress(s, i + 1, ks + [i], m')
  {
    var sourced := s[i];
    var record := sourced.record;
    KeptAtStep(s, i);
    IdTableKeep(s, i, m.seenIds);
    SeqTableStep(s, ks, m.finalRecords, m.seqDups, m.seenSeqs, i);
    var grown := m.finalRecords + [record];
    assert Picked(s, ks + [i]) == grown;
    var seenIds := m.seenIds[record.id := sourced.file];
    if record.residues in m.seenSeqs {
      m' := Merged(grown, m.totalCount + 1, m.nameDups, m.seqDups + 1, seenIds, m.seenSeqs);
    } else {
      var seenSeqs := m.seenSeqs[record.residues := (record.id, sourced.file)];
      m' := Merged(grown, m.totalCount + 1, m.nameDups, m.seqDups, seenIds, seenSeqs);
    }
  }

  /** One more record extends the kept positions exactly when it is the first of its id, i.e. its id is new. */
  lemma KeptAtStep(s: seq<Sourced>, i: nat)
    requires i < |s|
    ensures KeptAt(s[..i + 1]) == if FirstOfId(s, i) then KeptAt(s[..i]) + [i] else KeptAt(s[..i])
    ensures FirstOfId(s, i) <==> s[i].record.id !in IdsOf(s[..i])
  {
    var t := s[..i + 1];
    assert t[..i] == s[..i];
    assert forall j :: 0 <= j <= i ==> t[j] == s[j];
    assert FirstOfId(t, i) == FirstOfId(s, i);
    if !FirstOfId(s, i) {
      var j :| 0 <= j < i && s[j].record.id == s[i].record.id;
      assert s[..i][j] == s[j];
    }
  }

  /** A repeated id leaves the id table as it is. */
  lemma IdTableSkip(s: seq<Sourced>, i: nat, seenIds: map<string, string>)
    requires i < |s| && IdTable(s, i, seenIds) && s[i].record.id in seenIds
    ensures IdTable(s, i + 1, seenIds)
  {
    assert forall k :: 0 <= k < i ==> s[..i + 1][k] == s[..i][k];
    assert s[..i + 1][i] == s[i];
    assert IdsOf(s[..i + 1]) == IdsOf(s[..i]) + {s[i].record.id};
  }

  /** A fresh id enters the id table with the file of its record. */
  lemma IdTableKeep(s: seq<Sourced>, i: nat, seenIds: map<string, string>)
    requires i < |s| && IdTable(s, i, seenIds) && s[i].record.id !in seenIds
    ensures IdTable(s, i + 1, seenIds[s[i].record.id := s[i].file])
  {
    assert forall k :: 0 <= k < i ==> s[..i + 1][k] == s[..i][k];
    assert s[..i + 1][i] == s[i];
    assert IdsOf(s[..i + 1]) == IdsOf(s[..i]) + {s[i].record.id};
    forall k | 0 <= k < i && FirstOfId(s, k)
      ensures s[k].record.id != s[i].record.id
    {
      assert s[k].record.id == s[..i][k].record.id;
    }
  }

  /** Keeping the record at position `i` updates the sequence table as the loop does. */
  lemma SeqTableStep(s: seq<Sourced>, ks: seq<nat>, rs: seq<Record>, seqDups: nat, seenSeqs: map<string, (string, string)>, i: nat)
    requires i < |s| && |ks| == |rs| && forall j :: 0 <= j < |ks| ==> ks[j] < |s|
    requires SeqTable(s, ks, rs, seqDups, seenSeqs)
    ensures var r := s[i].record;
      SeqTable(s, ks + [i], rs + [r],
        if r.residues in seenSeqs then seqDups + 1 else seqDups,
        if r.residues in seenSeqs then seenSeqs else seenSeqs[r.residues := (r.id, s[i].file)])
  {
    var r := s[i].record;
    var grown := rs + [r];
    var ks' := ks + [i];
    assert grown[..|rs|] == rs;
    assert forall j :: 0 <= j < |rs| ==> grown[j] == rs[j] && ks'[j] == ks[j];
    forall j | 0 <= j < |rs| && FirstOfResidues(grown, j)
      ensures FirstOfResidues(rs, j)
    {
      forall h | 0 <= h < j ensures rs[h].residues != rs[j].residues {
        assert grown[h] == rs[h];
      }
    }
    if r.residues in seenSeqs {
      var j :| 0 <= j < |rs| && rs[j].residues == r.residues;
      assert grown[j].residues == grown[|rs|].residues;
      assert !FirstOfResidues(grown, |rs|);
      assert ResiduesOf(grown) == ResiduesOf(rs);
    } else {
      forall j | 0 <= j < |rs| ensures grown[j].residues != r.residues {
        assert rs[j].residues in ResiduesOf(rs);
      }
      assert FirstOfResidues(grown, |rs|);
      assert ResiduesOf(grown) == ResiduesOf(rs) + {r.residues};
    }
  }

  /**
   * The kept positions are increasing and are exactly the first occurrences
   * of each id: the first record per id wins, and the output keeps input order.
   */
  lemma {:induction false} KeptAtMeans(s: seq<Sourced>)
    ensures forall j, j' :: 0 <= j < j' < |KeptAt(s)| ==> KeptAt(s)[j] < KeptAt(s)[j']
    ensures forall j :: 0 <= j < |KeptAt(s)| ==> FirstOfId(s, KeptAt(s)[j])
    ensures forall k {:trigger FirstOfId(s, k)} :: 0 <= k < |s| && FirstOfId(s, k) ==> k in KeptAt(s)
  {
    if s != [] {
      var n := |s| - 1;
      var t := s[..n];
      KeptAtMeans(t);
      assert forall k :: 0 <= k < n ==> (FirstOfId(t, k) <==> FirstOfId(s, k)) by {
        assert forall k :: 0 <= k < n ==> t[k] == s[k];
      }
    }
  }

  /** Kept ids are pairwise distinct, and every id of the input is among them. */
  lemma KeptIdsDistinctAndComplete(s: seq<Sourced>)
    ensures var rs := Picked(s, KeptAt(s));
      forall j, j' :: 0 <= j < j' < |rs| ==> rs[j].id != rs[j'].id
    ensures var rs := Picked(s, KeptAt(s));
      forall k :: 0 <= k < |s| ==> exists j :: 0 <= j < |rs| && rs[j].id == s[k].record.id
  {
    KeptAtMeans(s);
    var ks := KeptAt(s);
    forall j, j' | 0 <= j < j' < |ks| ensures Picked(s, ks)[j].id != Picked(s, ks)[j'].id {
      assert FirstOfId(s, ks[j']);
    }
    forall k | 0 <= k < |s|
      ensures exists j :: 0 <= j < |ks| && Picked(s, ks)[j].id == s[k].record.id
    {
      var f := FirstWithId(s, k);
      var j :| 0 <= j < |ks| && ks[j] == f;
      assert Picked(s, ks)[j] == s[f].record;
    }
  }

  /** The earliest position carrying the same id as position `k`. */
  lemma {:induction false} FirstWithId(s: seq<Sourced>, k: nat) returns (f: nat)
    requires k < |s|
    ensures f <= k && s[f].record.id == s[k].record.id && FirstOfId(s, f)
    decreases k
  {
    if FirstOfId(s, k) {
      f := k;
    } else {
      var j :| 0 <= j < k && s[j].record.id == s[k].record.id;
      f := FirstWithId(s, j);
    }
  }

  /**
   * The sequence-duplicate counter is the number of kept records minus the
   * number of distinct kept sequences, so it never exceeds the kept count.
   */
  lemma {:induction false} DupCountIdentity(rs: seq<Record>)
    ensures DupCount(rs) + |ResiduesOf(rs)| == |rs|
  {
    if rs != [] {
      var n := |rs| - 1;
      var t := rs[..n];
      DupCountIdentity(t);
      assert ResiduesOf(rs) == ResiduesOf(t) + {rs[n].residues} by {
        assert forall j :: 0 <= j < n ==> rs[j] == t[j];
      }
      if FirstOfResidues(rs, n) {
        assert rs[n].residues !in ResiduesOf(t) by {
          forall j | 0 <= j < n ensures t[j].residues != rs[n].residues {
            assert t[j] == rs[j];
          }
        }
      } else {
        assert rs[n].residues in ResiduesOf(t) by {
          var j :| 0 <= j < n && rs[j].residues == rs[n].residues;
          assert t[j] == rs[j];
        }
      }
    }
  }
}
