/**
 * bin/identify_uniprot_decoys.py. The first column of the hits table names
 * the sequences that already hit a family. Every other UniProt record
 * whose name and sequence are both new becomes a decoy candidate. A random
 * sample of the candidates is written as FASTA.
 */
module IdentifyUniprotDecoys {
  import opened Common

  /** `random.sample` refuses a negative sample size. */
  datatype SampleError = NegativeSampleSize

  /**
   * The hit id a line of the hits table contributes: its first field, when
   * it has at least two. A blank line contributes nothing, and an id is a
   * non-empty run without whitespace.
   */
  function FirstColumn(line: string): (r: Option<string>)
    ensures AllSpace(line) ==> r == None
    ensures r.Some? ==> r.value != [] && NoSpace(r.value)
  {
    var body := Strip(line);
    if body == [] then None
    else
      var cols := SplitWhitespace(body);
      if |cols| >= 2 then Some(cols[0]) else None
  }

  /** The hit ids of a whole hits table. */
  ghost function HitIdsOf(lines: seq<string>): set<string>
  {
    set k | 0 <= k < |lines| && FirstColumn(lines[k]).Some? :: FirstColumn(lines[k]).value
  }

  /** The hit-id loop of `get_non_hit_sequences`. */
  method HitIds(lines: seq<string>) returns (hitIds: set<string>)
    ensures hitIds == HitIdsOf(lines)
    ensures forall x :: x in hitIds <==> exists k :: 0 <= k < |lines| && FirstColumn(lines[k]) == Some(x)
  {
    hitIds := {};
    var i := 0;
    while i < |lines|
      invariant i <= |lines|
      invariant forall x :: x in hitIds <==> exists k :: 0 <= k < i && FirstColumn(lines[k]) == Some(x)
    {
      var body := Strip(lines[i]);
      if body != [] {
        var cols := SplitWhitespace(body);
        if |cols| >= 2 {
          hitIds := hitIds + {cols[0]};
        }
      }
      i := i + 1;
    }
    assert forall x :: x in hitIds <==> x in HitIdsOf(lines);
  }

  function NamesOf(pool: seq<(string, string)>): set<string>
  {
    set k | 0 <= k < |pool| :: pool[k].0
  }

  function SequencesOf(pool: seq<(string, string)>): set<string>
  {
    set k | 0 <= k < |pool| :: pool[k].1
  }

  /**
   * The candidate pool the loop builds: a record joins when its name is not
   * a hit and neither its name nor its sequence is already in the pool.
   */
  function Pool(records: seq<Record>, hitIds: set<string>): seq<(string, string)>
  {
    if records == [] then []
    else
      var p := Pool(records[..|records| - 1], hitIds);
      var r := records[|records| - 1];
      if r.id !in hitIds && r.id !in NamesOf(p) && r.residues !in SequencesOf(p) then p + [(r.id, r.residues)] else p
  }

  /** The candidate loop of `get_non_hit_sequences`, with `seen_names` and `seen_sequences`. */
  method NonHitPool(records: seq<Record>, hitIds: set<string>) returns (decoys: seq<(string, string)>)
    ensures decoys == Pool(records, hitIds)
  {
    var seenNames: set<string> := {};
    var seenSequences: set<string> := {};
    decoys := [];
    var i := 0;
    while i < |records|
      invariant i <= |records|
      invariant decoys == Pool(records[..i], hitIds)
      invariant seenNames == NamesOf(decoys) && seenSequences == SequencesOf(decoys)
    {
      assert records[..i + 1][..i] == records[..i];
      var r := records[i];
      if r.id !in hitIds && r.id !in seenNames && r.residues !in seenSequences {
        var grown := decoys + [(r.id, r.residues)];
        assert forall k :: 0 <= k < |decoys| ==> grown[k] == decoys[k];
        assert grown[|decoys|] == (r.id, r.residues);
        assert NamesOf(grown) == NamesOf(decoys) + {r.id};
        assert SequencesOf(grown) == SequencesOf(decoys) + {r.residues};
        decoys := grown;
        seenNames := seenNames + {r.id};
        seenSequences := seenSequences + {r.residues};
      }
      i := i + 1;
    }
    assert records[..i] == records;
  }

  /**
   * `get_non_hit_sequences`: the hit ids, then the candidate pool. No
   * candidate is named in the hits file, no two share a name or a sequence,
   * each is an input record, and every other record is named in the hits
   * file or clashes with a candidate.
   */
  method GetNonHitSequences(hitLines: seq<string>, records: seq<Record>) returns (decoys: seq<(string, string)>)
    ensures decoys == Pool(records, HitIdsOf(hitLines))
    ensures forall k :: 0 <= k < |decoys| ==> decoys[k].0 !in HitIdsOf(hitLines)
    ensures forall j, k :: 0 <= j < k < |decoys| ==> decoys[j].0 != decoys[k].0 && decoys[j].1 != decoys[k].1
    ensures forall k :: 0 <= k < |decoys| ==> Record(decoys[k].0, decoys[k].1) in records
    ensures forall r :: r in records ==>
      r.id in HitIdsOf(hitLines) || r.id in NamesOf(decoys) || r.residues in SequencesOf(decoys)
  {
    var hitIds := HitIds(hitLines);
    decoys := NonHitPool(records, hitIds);
    PoolMeans(records, hitIds);
  }

  /**
   * What the pool promises: no candidate is a hit, candidate names are
   * pairwise distinct and so are candidate sequences, every candidate is an
   * input record, and every non-hit record is in the pool or clashes with a
   * candidate by name or by sequence.
   */
  lemma {:induction false} PoolMeans(records: seq<Record>, hitIds: set<string>)
    ensures var p := Pool(records, hitIds);
      && (forall k :: 0 <= k < |p| ==> p[k].0 !in hitIds)
      && (forall j, k :: 0 <= j < k < |p| ==> p[j].0 != p[k].0 && p[j].1 != p[k].1)
      && (forall k :: 0 <= k < |p| ==> Record(p[k].0, p[k].1) in records)
      && (forall r :: r in records && r.id !in hitIds ==> r.id in NamesOf(p) || r.residues in SequencesOf(p))
  {
    if records != [] {
      var init := records[..|records| - 1];
      var r := records[|records| - 1];
      PoolMeans(init, hitIds);
      var p := Pool(init, hitIds);
      assert forall x :: x in init ==> x in records;
      if r.id !in hitIds && r.id !in NamesOf(p) && r.residues !in SequencesOf(p) {
        var grown := p + [(r.id, r.residues)];
        assert Pool(records, hitIds) == grown;
        assert forall k :: 0 <= k < |p| ==> grown[k] == p[k];
        assert grown[|p|] == (r.id, r.residues);
        forall k | 0 <= k < |grown| ensures grown[k].0 !in hitIds && Record(grown[k].0, grown[k].1) in records {
        }
        forall j, k | 0 <= j < k < |grown| ensures grown[j].0 != grown[k].0 && grown[j].1 != grown[k].1 {
          if k == |p| {
            assert p[j].0 in NamesOf(p) && p[j].1 in SequencesOf(p);
          }
        }
        assert NamesOf(grown) == NamesOf(p) + {r.id};
        assert SequencesOf(grown) == SequencesOf(p) + {r.residues};
      } else {
        assert Pool(records, hitIds) == p;
      }
      forall x | x in records && x.id !in hitIds
        ensures x.id in NamesOf(Pool(records, hitIds)) || x.residues in SequencesOf(Pool(records, hitIds))
      {
        if x != r {
          assert x in init;
        }
      }
    }
  }

  /**
   * `random.sample(pool, min(sampleSize, len(pool)))`: `draw(t) % |rest|`
   * picks, at draw `t`, among the entries not picked yet.
   */
  method Sample(pool: seq<(string, string)>, sampleSize: int, draw: nat -> nat) returns (r: Result<seq<(string, string)>, SampleError>)
    ensures r.Err? <==> sampleSize < 0
    ensures r.Ok? ==> |r.value| == if sampleSize < |pool| then sampleSize else |pool|
    ensures r.Ok? ==> multiset(r.value) <= multiset(pool)
  {
    var k := if sampleSize < |pool| then sampleSize else |pool|;
    if k < 0 {
      return Err(NegativeSampleSize);
    }
    var sampled: seq<(string, string)> := [];
    var rest := pool;
    var t := 0;
    while t < k
      invariant t <= k
      invariant |sampled| == t && |rest| == |pool| - t
      invariant multiset(sampled) + multiset(rest) == multiset(pool)
    {
      var idx := draw(t) % |rest|;
      assert rest == rest[..idx] + [rest[idx]] + rest[idx + 1..];
      sampled := sampled + [rest[idx]];
      rest := rest[..idx] + rest[idx + 1..];
      t := t + 1;
    }
    r := Ok(sampled);
  }

  /** A sample of a pool without repeated entries has no repeated entries either. */
  lemma SampleDistinct(pool: seq<(string, string)>, sampled: seq<(string, string)>)
    requires forall j, k :: 0 <= j < k < |pool| ==> pool[j] != pool[k]
    requires multiset(sampled) <= multiset(pool)
    ensures forall j, k :: 0 <= j < k < |sampled| ==> sampled[j] != sampled[k]
  {
    forall j, k | 0 <= j < k < |sampled| ensures sampled[j] != sampled[k] {
      if sampled[j] == sampled[k] {
        var x := sampled[j];
        MultisetTwo(sampled, j, k);
        MultisetOne(pool, x);
        assert false;
      }
    }
  }

  /** An entry at two positions occurs at least twice. */
  lemma MultisetTwo<T>(s: seq<T>, j: nat, k: nat)
    requires j < k < |s| && s[j] == s[k]
    ensures multiset(s)[s[j]] >= 2
  {
    assert s == s[..j] + [s[j]] + s[j + 1..k] + [s[k]] + s[k + 1..];
  }

  /** In a sequence without repeats every entry occurs at most once. */
  lemma {:induction false} MultisetOne<T>(s: seq<T>, x: T)
    requires forall j, k :: 0 <= j < k < |s| ==> s[j] != s[k]
    ensures multiset(s)[x] <= 1
  {
    if s != [] {
      var t := s[1..];
      assert s == [s[0]] + t;
      MultisetOne(t, x);
      if x == s[0] {
        assert x !in t by {
          forall k | 0 <= k < |t| ensures t[k] != x {
            assert t[k] == s[k + 1];
          }
        }
      }
    }
  }

  /**
   * `sample_decoys`: the drawn sample and the FASTA text written for it.
   * Drawn from a pool without repeats, the sample has none either.
   */
  method SampleDecoys(pool: seq<(string, string)>, sampleSize: int, draw: nat -> nat)
    returns (sampled: seq<(string, string)>, r: Result<string, SampleError>)
    ensures r.Err? <==> sampleSize < 0
    ensures r.Ok? ==> |sampled| == (if sampleSize < |pool| then sampleSize else |pool|)
    ensures multiset(sampled) <= multiset(pool)
    ensures (forall j, k :: 0 <= j < k < |pool| ==> pool[j] != pool[k]) ==>
      forall j, k :: 0 <= j < k < |sampled| ==> sampled[j] != sampled[k]
    ensures r.Ok? ==> r.value == FastaText(sampled)
  {
    var s := Sample(pool, sampleSize, draw);
    if s.Err? {
      return [], Err(s.error);
    }
    sampled := s.value;
    if forall j, k :: 0 <= j < k < |pool| ==> pool[j] != pool[k] {
      SampleDistinct(pool, sampled);
    }
    var text := WriteFasta(sampled);
    r := Ok(text);
  }

  /**
   * `main`: the pool of non-hit candidates, then a sample of it. Every
   * sampled decoy is an input record that is not a hit, and no two sampled
   * decoys share a name or a sequence.
   */
  method IdentifyDecoys(hitLines: seq<string>, records: seq<Record>, numDecoys: int, draw: nat -> nat)
    returns (sampled: seq<(string, string)>, r: Result<string, SampleError>)
    ensures r.Err? <==> numDecoys < 0
    ensures var pool := Pool(records, HitIdsOf(hitLines));
      r.Ok? ==> |sampled| == (if numDecoys < |pool| then numDecoys else |pool|)
    ensures forall k :: 0 <= k < |sampled| ==> sampled[k].0 !in HitIdsOf(hitLines) && Record(sampled[k].0, sampled[k].1) in records
    ensures forall j, k :: 0 <= j < k < |sampled| ==> sampled[j].0 != sampled[k].0 && sampled[j].1 != sampled[k].1
    ensures r.Ok? ==> r.value == FastaText(sampled)
  {
    var pool := GetNonHitSequences(hitLines, records);
    sampled, r := SampleDecoys(pool, numDecoys, draw);
    forall k | 0 <= k < |sampled|
      ensures sampled[k] in pool
    {
      assert multiset(sampled)[sampled[k]] > 0;
    }
    forall j, k | 0 <= j < k < |sampled|
      ensures sampled[j].0 != sampled[k].0 && sampled[j].1 != sampled[k].1
    {
      var a :| 0 <= a < |pool| && pool[a] == sampled[j];
      var b :| 0 <= b < |pool| && pool[b] == sampled[k];
      assert a != b;
    }
  }
}
