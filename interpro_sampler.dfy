/**
 * `filter_by_minimum_membership` and `sample_entries` of
 * bin/sample_interpro.py: the candidate table is thinned by family size,
 * then each database group draws one family per round, and a family found
 * in the InterPro tree shuts out itself, its descendants, its siblings and
 * its parent for every group and every later round.
 */
module InterproSampler {
  import opened Common
  import opened InterproTree

  /** One row of the candidate table, reduced to the columns the sampler reads. */
  datatype Row = Row(interproId: string, db: string, proteinCount: int)

  /** `pd.concat([])` refuses an empty list of frames. */
  datatype SampleError = NoObjectsToConcatenate

  /**
   * `filter_by_minimum_membership`: the rows whose `protein_count` is at
   * least `minMembership`, in table order.
   */
  function FilterByMinimumMembership(rows: seq<Row>, minMembership: int): (r: seq<Row>)
    ensures forall k :: 0 <= k < |r| ==> r[k].proteinCount >= minMembership
    ensures forall x :: multiset(r)[x] == if x.proteinCount >= minMembership then multiset(rows)[x] else 0
  {
    if rows == [] then []
    else
      var init := rows[..|rows| - 1];
      var last := rows[|rows| - 1];
      assert rows == init + [last];
      var r := FilterByMinimumMembership(init, minMembership);
      if last.proteinCount >= minMembership then r + [last] else r
  }

  /** Python's `<` on `str`: lexicographic order of the code points. */
  predicate Below(x: string, y: string)
  {
    y != [] && (x == [] || x[0] < y[0] || (x[0] == y[0] && Below(x[1..], y[1..])))
  }

  lemma {:induction false} BelowIrreflexive(x: string)
    ensures !Below(x, x)
  {
    if x != [] {
      BelowIrreflexive(x[1..]);
    }
  }

  lemma {:induction false} BelowTransitive(x: string, y: string, z: string)
    requires Below(x, y) && Below(y, z)
    ensures Below(x, z)
  {
    if x != [] && x[0] == y[0] && y[0] == z[0] {
      BelowTransitive(x[1..], y[1..], z[1..]);
    }
  }

  lemma {:induction false} BelowTotal(x: string, y: string)
    ensures x == y || Below(x, y) || Below(y, x)
  {
    if x != [] && y != [] && x[0] == y[0] {
      BelowTotal(x[1..], y[1..]);
      assert x[1..] == y[1..] ==> x == [x[0]] + x[1..] == [y[0]] + y[1..] == y;
    }
  }

  /** Strictly increasing, hence also free of repeats. */
  predicate Sorted(keys: seq<string>)
  {
    forall i, j :: 0 <= i < j < |keys| ==> Below(keys[i], keys[j])
  }

  /** `x` put into its place in the sorted `keys`, unless it is already there. */
  function Insert(keys: seq<string>, x: string): (r: seq<string>)
    requires Sorted(keys)
    ensures Sorted(r)
    ensures forall y :: y in r <==> y in keys || y == x
  {
    if keys == [] then [x]
    else if x == keys[0] then keys
    else if Below(x, keys[0]) then
      forall j | 0 < j < |keys| ensures Below(x, keys[j]) {
        BelowTransitive(x, keys[0], keys[j]);
      }
      [x] + keys
    else
      BelowTotal(x, keys[0]);
      var rest := Insert(keys[1..], x);
      forall j | 0 <= j < |rest| ensures Below(keys[0], rest[j]) {
        if rest[j] != x {
          assert rest[j] in keys[1..];
          var k :| 0 <= k < |keys[1..]| && keys[1..][k] == rest[j];
          assert keys[k + 1] == rest[j];
        }
      }
      assert forall y :: y in keys[1..] ==> y in keys;
      assert forall j :: 0 < j < |keys| ==> keys[j] in keys[1..];
      [keys[0]] + rest
  }

  /** The keys of `df.groupby("db")`: every `db` value of the table once, in ascending order. */
  function GroupKeys(rows: seq<Row>): (r: seq<string>)
    ensures Sorted(r)
    ensures forall x :: x in r <==> exists j :: 0 <= j < |rows| && rows[j].db == x
  {
    if rows == [] then []
    else
      var init := rows[..|rows| - 1];
      var r := Insert(GroupKeys(init), rows[|rows| - 1].db);
      assert forall j :: 0 <= j < |init| ==> init[j] == rows[j];
      r
  }

  /** The group of the rows whose `db` is `key`, in table order. */
  function Group(rows: seq<Row>, key: string): seq<Row>
  {
    Filter(rows, (row: Row) => row.db == key)
  }

  /** `{node.get_direct_parent()} if node.get_direct_parent() else set()`: an empty identifier is falsy. */
  function ParentName(a: seq<Node>, i: nat): (r: set<string>)
    requires WellFormed(a) && i < |a|
    ensures r == {} <==> a[i].depth == 0 || DirectParent(a, i) == Some([])
  {
    match DirectParent(a, i)
    case None => {}
    case Some(p) => if p == [] then {} else {p}
  }

  /**
   * What picking `id` adds to `excluded`: for an identifier of the tree,
   * itself, the identifiers of the descendants, the siblings and the
   * parent of the node the table names; nothing for any other identifier.
   */
  ghost function Exclusion(a: seq<Node>, byId: map<string, nat>, id: string): set<string>
    requires WellFormed(a)
  {
    if id in byId && byId[id] < |a| then
      Ids(a, Desc(a, byId[id])) + Siblings(a, byId[id]) + ParentName(a, byId[id]) + {id}
    else {}
  }

  /** `excluded` after the picks `picks`, in the order they were made. */
  ghost function Excluded(a: seq<Node>, byId: map<string, nat>, picks: seq<Row>): set<string>
    requires WellFormed(a)
  {
    if picks == [] then {}
    else Excluded(a, byId, picks[..|picks| - 1]) + Exclusion(a, byId, picks[|picks| - 1].interproId)
  }

  /** Every pick's exclusion is part of the exclusions after it. */
  lemma {:induction false} ExcludedHas(a: seq<Node>, byId: map<string, nat>, picks: seq<Row>, s: nat)
    requires WellFormed(a) && s < |picks|
    ensures Exclusion(a, byId, picks[s].interproId) <= Excluded(a, byId, picks)
  {
    if s < |picks| - 1 {
      var init := picks[..|picks| - 1];
      assert init[s] == picks[s];
      ExcludedHas(a, byId, init, s);
    }
  }

  /** The identifiers of every node of the tree. */
  function NodeIds(a: seq<Node>): set<string>
  {
    set k | 0 <= k < |a| :: a[k].id
  }

  /** What one pick excludes are identifiers of the tree, when the table names nodes by their own identifier. */
  lemma ExclusionAreNodeIds(a: seq<Node>, byId: map<string, nat>, id: string)
    requires WellFormed(a)
    requires forall id :: id in byId ==> byId[id] < |a| && a[byId[id]].id == id
    ensures Exclusion(a, byId, id) <= NodeIds(a)
  {
    if id in byId {
      var i := byId[id];
      assert a[i].id in NodeIds(a);
      assert Ids(a, Desc(a, i)) <= NodeIds(a);
      assert Siblings(a, i) <= NodeIds(a);
      assert Linked(a, i);
      match a[i].parent {
        case None =>
        case Some(p) => assert a[p].id in NodeIds(a);
      }
    }
  }

  /** With a table that names nodes by their own identifier, only identifiers of the tree are ever excluded. */
  lemma {:induction false} ExcludedAreNodeIds(a: seq<Node>, byId: map<string, nat>, picks: seq<Row>)
    requires WellFormed(a)
    requires forall id :: id in byId ==> byId[id] < |a| && a[byId[id]].id == id
    ensures Excluded(a, byId, picks) <= NodeIds(a)
  {
    if picks != [] {
      ExcludedAreNodeIds(a, byId, picks[..|picks| - 1]);
      ExclusionAreNodeIds(a, byId, picks[|picks| - 1].interproId);
    }
  }

  /** `range(num_per_db)` runs this many rounds. */
  function Rounds(numPerDb: int): nat
  {
    if numPerDb < 0 then 0 else numPerDb
  }

  /** Every row of group `key` is shut out. */
  ghost predicate Exhausted(rows: seq<Row>, key: string, excluded: set<string>)
  {
    forall j :: 0 <= j < |rows| && rows[j].db == key ==> rows[j].interproId in excluded
  }

  /** No pick lies in what the picks before it excluded. */
  ghost predicate NeverExcluded(a: seq<Node>, byId: map<string, nat>, picks: seq<Row>)
    requires WellFormed(a)
  {
    forall u :: 0 <= u < |picks| ==> picks[u].interproId !in Excluded(a, byId, picks[..u])
  }

  lemma NeverExcludedStep(a: seq<Node>, byId: map<string, nat>, picks: seq<Row>, row: Row)
    requires WellFormed(a) && NeverExcluded(a, byId, picks)
    requires row.interproId !in Excluded(a, byId, picks)
    ensures NeverExcluded(a, byId, picks + [row])
    ensures Excluded(a, byId, picks + [row]) == Excluded(a, byId, picks) + Exclusion(a, byId, row.interproId)
  {
    var ps := picks + [row];
    assert ps[..|picks|] == picks;
    forall u | 0 <= u < |picks| ensures ps[..u] == picks[..u] && ps[u] == picks[u] { }
  }

  /** A later pick is never in what an earlier pick excluded. */
  lemma NeverExcludedPairs(a: seq<Node>, byId: map<string, nat>, picks: seq<Row>)
    requires WellFormed(a) && NeverExcluded(a, byId, picks)
    ensures forall s, t :: 0 <= s < t < |picks| ==>
      picks[t].interproId !in Exclusion(a, byId, picks[s].interproId)
  {
    forall s, u | 0 <= s < u < |picks|
      ensures picks[u].interproId !in Exclusion(a, byId, picks[s].interproId)
    {
      assert picks[..u][s] == picks[s];
      ExcludedHas(a, byId, picks[..u], s);
    }
  }

  /**
   * One group's turn in a round (sample_interpro.py lines 91-106): when
   * every row of the group is excluded the group is skipped and nothing
   * changes; otherwise the `draw`-th available row is picked, a row of the
   * group that is not excluded, and what it excludes is added.
   */
  method PickFrom(rows: seq<Row>, key: string, forest: Forest, byId: map<string, nat>,
                  excluded: set<string>, draw: nat)
      returns (picked: Option<Row>, excluded': set<string>)
    requires WellFormed(forest.nodes)
    requires forall id :: id in byId ==> byId[id] < |forest.nodes|
    ensures picked.None? <==> Exhausted(rows, key, excluded)
    ensures picked.None? ==> excluded' == excluded
    ensures picked.Some? ==>
      && picked.value in rows && picked.value.db == key && picked.value.interproId !in excluded
      && excluded' == excluded + Exclusion(forest.nodes, byId, picked.value.interproId)
  {
    var group := Group(rows, key);
    var available := Filter(group, (row: Row) => row.interproId !in excluded);
    if available == [] {
      forall j | 0 <= j < |rows| && rows[j].db == key ensures rows[j].interproId in excluded {
        assert rows[j] in group;
      }
      return None, excluded;
    }
    var row := available[draw % |available|];
    assert row in group;
    picked := Some(row);
    excluded' := excluded;
    if row.interproId in byId {
      var i := byId[row.interproId];
      var descendants := forest.GetDescendants(i);
      var siblings := Siblings(forest.nodes, i);
      var parent := ParentName(forest.nodes, i);
      excluded' := excluded + (descendants + siblings + parent + {row.interproId});
    }
  }

  /** The per-group blocks hold rows of their own groups. */
  ghost predicate BlocksOf(rows: seq<Row>, keys: seq<string>, samples: seq<seq<Row>>)
  {
    && |samples| == |keys|
    && forall g, k :: 0 <= g < |samples| && 0 <= k < |samples[g]| ==>
         samples[g][k] in rows && samples[g][k].db == keys[g]
  }

  lemma ExhaustedGrows(rows: seq<Row>, key: string, excluded: set<string>, more: set<string>)
    requires Exhausted(rows, key, excluded) && excluded <= more
    ensures Exhausted(rows, key, more)
  {
  }

  /**
   * One round of `sample_entries` (lines 89-106): every group in key order
   * takes its turn. Each block gains one row, or stays as it was when its
   * group is exhausted by then; the picks of the round follow the earlier
   * ones, none lies in what was excluded before it, and `excluded` grows by
   * what they exclude.
   */
  method PlayRound(rows: seq<Row>, keys: seq<string>, forest: Forest, byId: map<string, nat>, draw: nat -> nat,
                   samples: seq<seq<Row>>, excluded: set<string>, t: nat, ghost picks: seq<Row>)
      returns (samples': seq<seq<Row>>, excluded': set<string>, t': nat, ghost picks': seq<Row>)
    requires WellFormed(forest.nodes)
    requires forall id :: id in byId ==> byId[id] < |forest.nodes|
    requires BlocksOf(rows, keys, samples)
    requires t == |picks| && excluded == Excluded(forest.nodes, byId, picks)
    requires multiset(Flatten(samples)) == multiset(picks)
    requires NeverExcluded(forest.nodes, byId, picks)
    ensures BlocksOf(rows, keys, samples')
    ensures t' == |picks'| && excluded' == Excluded(forest.nodes, byId, picks')
    ensures multiset(Flatten(samples')) == multiset(picks')
    ensures NeverExcluded(forest.nodes, byId, picks')
    ensures excluded <= excluded'
    ensures forall g :: 0 <= g < |keys| ==>
      || |samples'[g]| == |samples[g]| + 1
      || (|samples'[g]| == |samples[g]| && Exhausted(rows, keys[g], excluded'))
  {
    ghost var a := forest.nodes;
    samples', excluded', t', picks' := samples, excluded, t, picks;
    for gi := 0 to |keys|
      invariant BlocksOf(rows, keys, samples')
      invariant t' == |picks'| && excluded' == Excluded(a, byId, picks')
      invariant multiset(Flatten(samples')) == multiset(picks')
      invariant NeverExcluded(a, byId, picks')
      invariant excluded <= excluded'
      invariant forall g :: 0 <= g < gi ==>
        || |samples'[g]| == |samples[g]| + 1
        || (|samples'[g]| == |samples[g]| && Exhausted(rows, keys[g], excluded'))
      invariant forall g :: gi <= g < |keys| ==> samples'[g] == samples[g]
    {
      var picked, next := PickFrom(rows, keys[gi], forest, byId, excluded', draw(t'));
      forall g | 0 <= g < gi && |samples'[g]| == |samples[g]| && Exhausted(rows, keys[g], excluded')
        ensures Exhausted(rows, keys[g], next)
      {
        ExhaustedGrows(rows, keys[g], excluded', next);
      }
      if picked.None? {
        continue;
      }
      var row := picked.value;
      FlattenGrow(samples', gi, row);
      NeverExcludedStep(a, byId, picks', row);
      samples' := samples'[gi := samples'[gi] + [row]];
      picks' := picks' + [row];
      excluded' := next;
      t' := t' + 1;
    }
  }

  /**
   * `sample_entries`. `draw` stands for `available.sample(n=1)`: the
   * `t`-th pick of the run takes the available row at `draw(t)` modulo the
   * number of available rows, so every choice the random source can make
   * is covered.
   *
   * The answer is the per-group blocks, in ascending `db` order, one after
   * another; each block holds rows of its group, at most one per round.
   * A block that is short of a full set of rounds belongs to a group whose
   * every row was shut out, so a group with a row whose identifier is not
   * in the tree fills every round. A pick never falls in what an earlier
   * pick excluded. With no rows at all there is no group and the
   * concatenation fails.
   */
  method SampleEntries(rows: seq<Row>, forest: Forest, byId: map<string, nat>, numPerDb: int, draw: nat -> nat)
      returns (r: Result<seq<Row>, SampleError>, ghost picks: seq<Row>, ghost blocks: seq<seq<Row>>)
    requires WellFormed(forest.nodes)
    requires forall id :: id in byId ==> byId[id] < |forest.nodes| && forest.nodes[byId[id]].id == id
    ensures r.Err? <==> rows == []
    ensures r.Ok? ==> r.value == Flatten(blocks)
    ensures multiset(Flatten(blocks)) == multiset(picks)
    ensures |blocks| == |GroupKeys(rows)|
    ensures forall g, k :: 0 <= g < |blocks| && 0 <= k < |blocks[g]| ==>
      blocks[g][k] in rows && blocks[g][k].db == GroupKeys(rows)[g]
    ensures forall g :: 0 <= g < |blocks| ==> |blocks[g]| <= Rounds(numPerDb)
    ensures forall g :: 0 <= g < |blocks| && |blocks[g]| < Rounds(numPerDb) ==>
      Exhausted(rows, GroupKeys(rows)[g], Excluded(forest.nodes, byId, picks))
    ensures forall g, j ::
      (0 <= g < |blocks| && 0 <= j < |rows| && rows[j].db == GroupKeys(rows)[g] &&
       rows[j].interproId !in NodeIds(forest.nodes)) ==> |blocks[g]| == Rounds(numPerDb)
    ensures forall s, t :: 0 <= s < t < |picks| ==>
      picks[t].interproId !in Exclusion(forest.nodes, byId, picks[s].interproId)
  {
    var keys := GroupKeys(rows);
    var excluded: set<string> := {};
    var samples: seq<seq<Row>> := seq(|keys|, _ => []);
    FlattenEmpty(samples);
    var t := 0;
    picks := [];
    ghost var a := forest.nodes;
    var rounds := Rounds(numPerDb);
    for round := 0 to rounds
      invariant BlocksOf(rows, keys, samples)
      invariant t == |picks| && excluded == Excluded(a, byId, picks)
      invariant multiset(Flatten(samples)) == multiset(picks)
      invariant NeverExcluded(a, byId, picks)
      invariant forall g :: 0 <= g < |samples| ==> |samples[g]| <= round
      invariant forall g :: 0 <= g < |samples| && |samples[g]| < round ==> Exhausted(rows, keys[g], excluded)
    {
      ghost var before, was := samples, excluded;
      samples, excluded, t, picks := PlayRound(rows, keys, forest, byId, draw, samples, excluded, t, picks);
      forall g | 0 <= g < |samples| && |before[g]| < round ensures Exhausted(rows, keys[g], excluded) {
        ExhaustedGrows(rows, keys[g], was, excluded);
      }
    }
    NeverExcludedPairs(a, byId, picks);
    ExcludedAreNodeIds(a, byId, picks);
    blocks := samples;
    if |keys| == 0 {
      assert rows != [] ==> rows[0].db in keys;
      r := Err(NoObjectsToConcatenate);
    } else {
      r := Ok(Flatten(samples));
    }
  }
}
