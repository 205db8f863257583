/**
 * bin/investigate_matched_originals.py, without its file walking and its
 * floating-point averages. The clustering table is inverted into a map from
 * member to representative. The sequences of one family are grouped by the
 * cluster they fall in, and the clusters by their size. The family's
 * sequence names are intersected with every use-case set, and the family is
 * tagged vanished, matched, split or partial.
 */
module InvestigateMatchedOriginals {
  import opened Common

  /** `rep, member = line.strip().split()` fails unless the line has exactly two fields. */
  datatype ClusterError = MalformedClusterLine(line: nat)

  datatype Tag = Vanished | Matched | Split | Partial

  /** The clustering as `load_cluster_file` returns it; `order` is the key order of `memberToCluster`. */
  datatype Clusters = Clusters(memberToCluster: map<string, string>, order: seq<string>, clusterSizes: map<string, seq<string>>)

  /** The (representative, member) pair of one clustering line, if it has exactly two fields. */
  function ClusterFields(line: string): (r: Option<(string, string)>)
    ensures r.Some? ==> NoSpace(r.value.0) && NoSpace(r.value.1)
  {
    var cols := SplitWhitespace(Strip(line));
    if |cols| == 2 then Some((cols[0], cols[1])) else None
  }

  predicate AllPairs(lines: seq<string>)
  {
    forall k :: 0 <= k < |lines| ==> ClusterFields(lines[k]).Some?
  }

  function Pairs(lines: seq<string>): (ps: seq<(string, string)>)
    requires AllPairs(lines)
    ensures |ps| == |lines| && forall k :: 0 <= k < |lines| ==> ClusterFields(lines[k]) == Some(ps[k])
  {
    seq(|lines|, k requires 0 <= k < |lines| => ClusterFields(lines[k]).value)
  }

  /** Line `k` is the last of the first `n` lines that names its member. */
  ghost predicate LastIn(ps: seq<(string, string)>, n: nat, k: nat)
    requires k < n <= |ps|
  {
    forall j :: k < j < n ==> ps[j].1 != ps[k].1
  }

  ghost function MembersOf(ps: seq<(string, string)>, n: nat): set<string>
    requires n <= |ps|
  {
    set k | 0 <= k < n :: ps[k].1
  }

  /** Distinct entries. */
  predicate NoRepeats(xs: seq<string>)
  {
    forall j, k :: 0 <= j < k < |xs| ==> xs[j] != xs[k]
  }

  /** The index of the first pair naming member `x`, or `|ps|` when none does. */
  function FirstAt(ps: seq<(string, string)>, x: string): (k: nat)
    ensures k <= |ps|
    ensures forall j :: 0 <= j < k ==> ps[j].1 != x
    ensures k < |ps| ==> ps[k].1 == x
  {
    if ps == [] then 0
    else if ps[0].1 == x then 0
    else 1 + FirstAt(ps[1..], x)
  }

  /** `order` lists members by the index of the first pair naming each. */
  ghost predicate InFirstOrder(ps: seq<(string, string)>, order: seq<string>)
  {
    forall j, k :: 0 <= j < k < |order| ==> FirstAt(ps, order[j]) < FirstAt(ps, order[k])
  }

  /** A member first named by pair `n` goes after every member named before it. */
  lemma FirstOrderAppend(ps: seq<(string, string)>, n: nat, order: seq<string>)
    requires n < |ps| && InFirstOrder(ps, order) && ps[n].1 !in MembersOf(ps, n)
    requires forall y :: y in order ==> y in MembersOf(ps, n)
    ensures InFirstOrder(ps, order + [ps[n].1])
  {
    var x := ps[n].1;
    assert FirstAt(ps, x) == n;
    forall j | 0 <= j < |order| ensures FirstAt(ps, order[j]) < n {
      assert order[j] in order;
    }
  }

  /**
   * `member_to_cluster` after the first `n` pairs: its keys are the members
   * named so far, listed once each in `order` in the order they were first
   * named, and each member maps to the representative of the last pair
   * naming it.
   */
  ghost predicate Inverted(ps: seq<(string, string)>, n: nat, m: map<string, string>, order: seq<string>)
    requires n <= |ps|
  {
    && m.Keys == MembersOf(ps, n)
    && NoRepeats(order)
    && (forall x :: x in m <==> x in order)
    && InFirstOrder(ps, order)
    && forall k {:trigger LastIn(ps, n, k)} :: 0 <= k < n && LastIn(ps, n, k) ==> m[ps[k].1] == ps[k].0
  }

  /**
   * The first loop of `load_cluster_file`: one dictionary assignment per
   * line, the last one winning. A malformed line raises before the mapping
   * is returned, so the lines are checked first and then assigned in order.
   */
  method InvertClusters(lines: seq<string>) returns (r: Result<(map<string, string>, seq<string>), ClusterError>)
    ensures r.Err? <==> !AllPairs(lines)
    ensures r.Err? ==> (r.error.line < |lines| && ClusterFields(lines[r.error.line]).None? &&
      forall k :: 0 <= k < r.error.line ==> ClusterFields(lines[k]).Some?)
    ensures r.Ok? ==> AllPairs(lines) && Inverted(Pairs(lines), |lines|, r.value.0, r.value.1)
  {
    var i := 0;
    while i < |lines|
      invariant i <= |lines| && forall k :: 0 <= k < i ==> ClusterFields(lines[k]).Some?
    {
      if ClusterFields(lines[i]).None? {
        return Err(MalformedClusterLine(i));
      }
      i := i + 1;
    }
    var m, order := AssignPairs(Pairs(lines));
    r := Ok((m, order));
  }

  /** The assignments `member_to_cluster[member] = rep`, one per pair, in order. */
  method AssignPairs(ps: seq<(string, string)>) returns (m: map<string, string>, order: seq<string>)
    ensures Inverted(ps, |ps|, m, order)
  {
    m := map[];
    order := [];
    for i := 0 to |ps|
      invariant Inverted(ps, i, m, order)
    {
      m, order := AssignOne(ps, i, m, order);
    }
  }

  /** `member_to_cluster[member] = rep` for pair `n`: a new member also goes last in the key order. */
  method AssignOne(ps: seq<(string, string)>, n: nat, m: map<string, string>, order: seq<string>)
    returns (m': map<string, string>, order': seq<string>)
    requires n < |ps| && Inverted(ps, n, m, order)
    ensures Inverted(ps, n + 1, m', order')
  {
    var rep, member := ps[n].0, ps[n].1;
    order' := if member in m then order else order + [member];
    m' := m[member := rep];
    InvertStep(ps, n, m, order, m', order');
  }

  /** One more pair keeps `Inverted`: the member is added to the order if new, and now maps to this representative. */
  lemma InvertStep(ps: seq<(string, string)>, n: nat, m: map<string, string>, order: seq<string>,
                   m': map<string, string>, order': seq<string>)
    requires n < |ps| && Inverted(ps, n, m, order)
    requires m' == m[ps[n].1 := ps[n].0]
    requires order' == if ps[n].1 in m then order else order + [ps[n].1]
    ensures Inverted(ps, n + 1, m', order')
  {
    assert MembersOf(ps, n + 1) == MembersOf(ps, n) + {ps[n].1};
    OrderStep(ps, n, m, order, order');
    LastStep(ps, n, m, order, m');
  }

  /** The key order after one more pair: still without repeats, still by first naming. */
  lemma OrderStep(ps: seq<(string, string)>, n: nat, m: map<string, string>, order: seq<string>, order': seq<string>)
    requires n < |ps| && Inverted(ps, n, m, order)
    requires order' == if ps[n].1 in m then order else order + [ps[n].1]
    ensures NoRepeats(order') && InFirstOrder(ps, order')
    ensures forall x :: x in m[ps[n].1 := ps[n].0] <==> x in order'
  {
    if ps[n].1 !in m {
      AppendFresh(order, ps[n].1);
      FirstOrderAppend(ps, n, order);
    }
  }

  /** After one more pair, each member maps to the representative of the last pair naming it. */
  lemma LastStep(ps: seq<(string, string)>, n: nat, m: map<string, string>, order: seq<string>, m': map<string, string>)
    requires n < |ps| && Inverted(ps, n, m, order)
    requires m' == m[ps[n].1 := ps[n].0]
    ensures forall k {:trigger LastIn(ps, n + 1, k)} :: 0 <= k < n + 1 && LastIn(ps, n + 1, k) ==> m'[ps[k].1] == ps[k].0
  {
    forall k | 0 <= k < n + 1 && LastIn(ps, n + 1, k)
      ensures m'[ps[k].1] == ps[k].0
    {
      if k < n {
        assert ps[k].1 != ps[n].1;
        assert LastIn(ps, n, k);
      }
    }
  }

  /** The ids of `ids` that the clustering puts in cluster `c`, in order, repeats included. */
  function InCluster(ids: seq<string>, m: map<string, string>, c: string): seq<string>
  {
    if ids == [] then []
    else
      var x := ids[|ids| - 1];
      InCluster(ids[..|ids| - 1], m, c) + (if x in m && m[x] == c then [x] else [])
  }

  /** An id is listed under `c` exactly when the clustering puts it in `c`. */
  lemma {:induction false} InClusterMeans(ids: seq<string>, m: map<string, string>, c: string)
    ensures forall x :: x in InCluster(ids, m, c) <==> x in ids && x in m && m[x] == c
  {
    if ids != [] {
      var init := ids[..|ids| - 1];
      InClusterMeans(init, m, c);
      assert ids == init + [ids[|ids| - 1]];
    }
  }

  /** Ids without repeats give cluster lists without repeats. */
  lemma {:induction false} InClusterNoRepeats(ids: seq<string>, m: map<string, string>, c: string)
    requires NoRepeats(ids)
    ensures NoRepeats(InCluster(ids, m, c))
  {
    if ids != [] {
      var init := ids[..|ids| - 1];
      var x := ids[|ids| - 1];
      assert NoRepeats(init) by {
        forall j, k | 0 <= j < k < |init| ensures init[j] != init[k] {
          assert init[j] == ids[j] && init[k] == ids[k];
        }
      }
      InClusterNoRepeats(init, m, c);
      InClusterMeans(init, m, c);
      assert x !in init by {
        forall j | 0 <= j < |init| ensures init[j] != x {
          assert init[j] == ids[j];
        }
      }
      var r := InCluster(init, m, c);
      if x in m && m[x] == c {
        forall a, b | 0 <= a < b < |r| + 1 ensures (r + [x])[a] != (r + [x])[b] {
          if b == |r| {
            assert (r + [x])[a] == r[a];
            assert r[a] in r;
          } else {
            assert (r + [x])[a] == r[a] && (r + [x])[b] == r[b];
          }
        }
      }
    }
  }

  /** The clusters hit by the first `n` ids. */
  ghost function HitClusters(ids: seq<string>, n: nat, m: map<string, string>): set<string>
    requires n <= |ids|
  {
    set k | 0 <= k < n && ids[k] in m :: m[ids[k]]
  }

  /** A cluster is hit exactly when some id falls in it. */
  lemma HitMeans(ids: seq<string>, n: nat, m: map<string, string>, c: string)
    requires n <= |ids|
    ensures c in HitClusters(ids, n, m) <==> InCluster(ids[..n], m, c) != []
  {
    InClusterMeans(ids[..n], m, c);
    if c in HitClusters(ids, n, m) {
      var k :| 0 <= k < n && ids[k] in m && m[ids[k]] == c;
      assert ids[..n][k] == ids[k];
      assert ids[k] in InCluster(ids[..n], m, c);
    }
    if InCluster(ids[..n], m, c) != [] {
      var x := InCluster(ids[..n], m, c)[0];
      assert x in InCluster(ids[..n], m, c);
      var k :| 0 <= k < n && ids[..n][k] == x;
    }
  }

  /** The index of the first id in cluster `c`, or `|ids|` when none is. */
  function FirstHit(ids: seq<string>, m: map<string, string>, c: string): (k: nat)
    ensures k <= |ids|
    ensures forall j :: 0 <= j < k ==> !(ids[j] in m && m[ids[j]] == c)
    ensures k < |ids| ==> ids[k] in m && m[ids[k]] == c
  {
    if ids == [] then 0
    else if ids[0] in m && m[ids[0]] == c then 0
    else 1 + FirstHit(ids[1..], m, c)
  }

  /** `reps` lists clusters by the index of the first id in each. */
  ghost predicate InHitOrder(ids: seq<string>, m: map<string, string>, reps: seq<string>)
  {
    forall a, b :: 0 <= a < b < |reps| ==> FirstHit(ids, m, reps[a]) < FirstHit(ids, m, reps[b])
  }

  /** A cluster first hit by id `n` goes after every cluster hit before it. */
  lemma HitOrderAppend(ids: seq<string>, n: nat, m: map<string, string>, reps: seq<string>)
    requires n < |ids| && ids[n] in m && m[ids[n]] !in HitClusters(ids, n, m) && InHitOrder(ids, m, reps)
    requires forall c :: c in reps ==> c in HitClusters(ids, n, m)
    ensures InHitOrder(ids, m, reps + [m[ids[n]]])
  {
    assert FirstHit(ids, m, m[ids[n]]) == n;
    forall a | 0 <= a < |reps| ensures FirstHit(ids, m, reps[a]) < n {
      assert reps[a] in reps;
    }
  }

  /**
   * The groups after the first `n` ids: one list per cluster hit, holding
   * the ids in that cluster in order, with `reps` the order in which the
   * clusters were first hit.
   */
  ghost predicate GroupedBy(ids: seq<string>, n: nat, m: map<string, string>, groups: map<string, seq<string>>, reps: seq<string>)
    requires n <= |ids|
  {
    && groups.Keys == HitClusters(ids, n, m)
    && NoRepeats(reps) && (forall c :: c in groups <==> c in reps)
    && InHitOrder(ids, m, reps)
    && (forall c :: c in groups ==> groups[c] == InCluster(ids[..n], m, c))
  }

  /** One id more extends only the list of its own cluster. */
  lemma InClusterStep(ids: seq<string>, n: nat, m: map<string, string>)
    requires n < |ids|
    ensures forall c ::
      InCluster(ids[..n + 1], m, c) == InCluster(ids[..n], m, c) + (if ids[n] in m && m[ids[n]] == c then [ids[n]] else [])
    ensures HitClusters(ids, n + 1, m) == HitClusters(ids, n, m) + (if ids[n] in m then {m[ids[n]]} else {})
  {
    assert ids[..n + 1][..n] == ids[..n];
    assert ids[..n + 1][n] == ids[n];
  }

  /** Appending a new entry to a sequence without repeats keeps it without repeats. */
  lemma AppendFresh(xs: seq<string>, c: string)
    requires NoRepeats(xs) && c !in xs
    ensures NoRepeats(xs + [c])
  {
    forall a, b | 0 <= a < b < |xs| + 1 ensures (xs + [c])[a] != (xs + [c])[b] {
      if b == |xs| {
        assert (xs + [c])[a] == xs[a];
        assert xs[a] in xs;
      } else {
        assert (xs + [c])[a] == xs[a] && (xs + [c])[b] == xs[b];
      }
    }
  }

  /** An id outside the clustering leaves the groups as they are. */
  lemma GroupSkip(ids: seq<string>, n: nat, m: map<string, string>, groups: map<string, seq<string>>, reps: seq<string>)
    requires n < |ids| && ids[n] !in m && GroupedBy(ids, n, m, groups, reps)
    ensures GroupedBy(ids, n + 1, m, groups, reps)
  {
    InClusterStep(ids, n, m);
  }

  /** An id of a cluster already hit is appended to that cluster's list. */
  lemma GroupExtend(ids: seq<string>, n: nat, m: map<string, string>, groups: map<string, seq<string>>, reps: seq<string>,
                    g: map<string, seq<string>>)
    requires n < |ids| && ids[n] in m && m[ids[n]] in groups && GroupedBy(ids, n, m, groups, reps)
    requires g == groups[m[ids[n]] := groups[m[ids[n]]] + [ids[n]]]
    ensures GroupedBy(ids, n + 1, m, g, reps)
  {
    InClusterStep(ids, n, m);
    assert g.Keys == groups.Keys;
    forall c | c in g ensures g[c] == InCluster(ids[..n + 1], m, c) {
    }
  }

  /** An id of a cluster not hit yet opens that cluster's list, last in the key order. */
  lemma GroupOpen(ids: seq<string>, n: nat, m: map<string, string>, groups: map<string, seq<string>>, reps: seq<string>,
                  g: map<string, seq<string>>, reps': seq<string>)
    requires n < |ids| && ids[n] in m && m[ids[n]] !in groups && GroupedBy(ids, n, m, groups, reps)
    requires g == groups[m[ids[n]] := [ids[n]]] && reps' == reps + [m[ids[n]]]
    ensures GroupedBy(ids, n + 1, m, g, reps')
  {
    var c0 := m[ids[n]];
    InClusterStep(ids, n, m);
    assert g.Keys == HitClusters(ids, n + 1, m);
    AppendFresh(reps, c0);
    HitOrderAppend(ids, n, m, reps);
    OpenLists(ids, n, m, groups, reps, g);
  }

  /** The lists after a cluster is opened: the new one holds its first id, the others are unchanged. */
  lemma OpenLists(ids: seq<string>, n: nat, m: map<string, string>, groups: map<string, seq<string>>, reps: seq<string>,
                  g: map<string, seq<string>>)
    requires n < |ids| && ids[n] in m && m[ids[n]] !in groups && GroupedBy(ids, n, m, groups, reps)
    requires g == groups[m[ids[n]] := [ids[n]]]
    ensures forall c :: c in g ==> g[c] == InCluster(ids[..n + 1], m, c)
  {
    var c0 := m[ids[n]];
    InClusterStep(ids, n, m);
    assert g[c0] == InCluster(ids[..n + 1], m, c0) by {
      HitMeans(ids, n, m, c0);
    }
    forall c | c in g ensures g[c] == InCluster(ids[..n + 1], m, c) {
      if c != c0 {
        assert g[c] == groups[c];
      }
    }
  }

  /**
   * One turn of the grouping loop: `groups[m[x]].append(x)` on a
   * `defaultdict(list)` for an id `x` the clustering knows, a new key going
   * last; an id it does not know is skipped.
   */
  method GroupOne(ghost ids: seq<string>, ghost n: nat, m: map<string, string>, x: string,
                  groups: map<string, seq<string>>, reps: seq<string>)
    returns (groups': map<string, seq<string>>, reps': seq<string>)
    requires n < |ids| && ids[n] == x && GroupedBy(ids, n, m, groups, reps)
    ensures GroupedBy(ids, n + 1, m, groups', reps')
  {
    if x !in m {
      GroupSkip(ids, n, m, groups, reps);
      return groups, reps;
    }
    var c := m[x];
    if c in groups {
      groups', reps' := groups[c := groups[c] + [x]], reps;
      GroupExtend(ids, n, m, groups, reps, groups');
    } else {
      groups', reps' := groups[c := [x]], reps + [c];
      GroupOpen(ids, n, m, groups, reps, groups', reps');
    }
  }

  /**
   * The grouping loop, run by `load_cluster_file` over `member_to_cluster`
   * to build `cluster_sizes` and by `analyze_fasta_file` over the family's
   * ids to build `fam_clusters`: each id the clustering knows is appended to
   * the list of its cluster, and `reps` is the resulting key order.
   */
  method GroupByCluster(ids: seq<string>, m: map<string, string>) returns (groups: map<string, seq<string>>, reps: seq<string>)
    ensures groups.Keys == HitClusters(ids, |ids|, m)
    ensures NoRepeats(reps) && forall c :: c in groups <==> c in reps
    ensures InHitOrder(ids, m, reps)
    ensures forall c :: c in groups ==> groups[c] == InCluster(ids, m, c) && groups[c] != []
  {
    groups := map[];
    reps := [];
    var i := 0;
    while i < |ids|
      invariant i <= |ids|
      invariant GroupedBy(ids, i, m, groups, reps)
    {
      groups, reps := GroupOne(ids, i, m, ids[i], groups, reps);
      i := i + 1;
    }
    assert ids[..i] == ids;
    forall c | c in groups ensures groups[c] != [] {
      HitMeans(ids, i, m, c);
    }
  }

  /**
   * `load_cluster_file`. Each representative lists exactly the members
   * whose last line names it, once each, and every member is listed. The
   * keys of `cluster_sizes` are exactly the representatives some member
   * ends up with: every member's representative is a key, and no list is
   * empty.
   */
  method LoadClusterFile(lines: seq<string>) returns (r: Result<Clusters, ClusterError>)
    ensures r.Err? <==> !AllPairs(lines)
    ensures r.Err? ==> (r.error.line < |lines| && ClusterFields(lines[r.error.line]).None? &&
      forall k :: 0 <= k < r.error.line ==> ClusterFields(lines[k]).Some?)
    ensures r.Ok? ==> AllPairs(lines) && Inverted(Pairs(lines), |lines|, r.value.memberToCluster, r.value.order)
    ensures r.Ok? ==> forall c, x :: c in r.value.clusterSizes ==>
      (x in r.value.clusterSizes[c] <==> x in r.value.memberToCluster && r.value.memberToCluster[x] == c)
    ensures r.Ok? ==> forall x :: x in r.value.memberToCluster ==> r.value.memberToCluster[x] in r.value.clusterSizes
    ensures r.Ok? ==> forall c :: c in r.value.clusterSizes ==> NoRepeats(r.value.clusterSizes[c]) && r.value.clusterSizes[c] != []
  {
    var inverted := InvertClusters(lines);
    if inverted.Err? {
      return Err(inverted.error);
    }
    var (m, order) := inverted.value;
    var sizes, _ := GroupByCluster(order, m);
    forall c | c in sizes
      ensures (forall x :: x in sizes[c] <==> x in m && m[x] == c) && NoRepeats(sizes[c])
    {
      InClusterMeans(order, m, c);
      InClusterNoRepeats(order, m, c);
    }
    forall x | x in m ensures m[x] in sizes {
      var t :| 0 <= t < |order| && order[t] == x;
      assert m[x] in HitClusters(order, |order|, m);
    }
    r := Ok(Clusters(m, order, sizes));
  }

  /** How many of the clusters `reps` have exactly `size` members. */
  function ClustersOfSize(fc: map<string, seq<string>>, reps: seq<string>, size: nat): nat
    requires forall c :: c in reps ==> c in fc
  {
    if reps == [] then 0
    else
      var c := reps[|reps| - 1];
      ClustersOfSize(fc, reps[..|reps| - 1], size) + (if |fc[c]| == size then 1 else 0)
  }

  /** The clusters of `reps` with exactly `size` members. */
  ghost function OfSize(fc: map<string, seq<string>>, reps: seq<string>, size: nat): set<string>
    requires forall c :: c in reps ==> c in fc
  {
    set c | c in reps && |fc[c]| == size
  }

  /** Dropping the last entry of a sequence without repeats leaves one without repeats that lacks it. */
  lemma NoRepeatsInit(xs: seq<string>)
    requires xs != [] && NoRepeats(xs)
    ensures NoRepeats(xs[..|xs| - 1]) && xs[|xs| - 1] !in xs[..|xs| - 1]
  {
    var init := xs[..|xs| - 1];
    forall j | 0 <= j < |init| ensures init[j] == xs[j] {
    }
  }

  /** Over clusters listed once each, `ClustersOfSize` counts the clusters of that size. */
  lemma {:induction false} ClustersOfSizeCount(fc: map<string, seq<string>>, reps: seq<string>, size: nat)
    requires NoRepeats(reps) && forall c :: c in reps ==> c in fc
    ensures ClustersOfSize(fc, reps, size) == |OfSize(fc, reps, size)|
  {
    if reps != [] {
      var init := reps[..|reps| - 1];
      var last := reps[|reps| - 1];
      NoRepeatsInit(reps);
      ClustersOfSizeCount(fc, init, size);
      assert reps == init + [last];
      assert OfSize(fc, reps, size) == OfSize(fc, init, size) + (if |fc[last]| == size then {last} else {});
    }
  }

  /** The sizes of the first `n` clusters of `reps`. */
  ghost function SizesOf(fc: map<string, seq<string>>, reps: seq<string>, n: nat): set<nat>
    requires n <= |reps| && forall c :: c in reps ==> c in fc
  {
    set t | 0 <= t < n :: |fc[reps[t]]|
  }

  /** `size_to_members` after the first `n` clusters of `reps`. */
  ghost predicate BySize(fc: map<string, seq<string>>, reps: seq<string>, n: nat, bySize: map<nat, seq<string>>)
    requires n <= |reps| && forall c :: c in reps ==> c in fc
  {
    && bySize.Keys == SizesOf(fc, reps, n)
    && (forall size :: size in bySize ==> |bySize[size]| == size * ClustersOfSize(fc, reps[..n], size))
    && (forall size :: size !in bySize ==> ClustersOfSize(fc, reps[..n], size) == 0)
  }

  /** One cluster more counts only towards its own size. */
  lemma ClustersOfSizeStep(fc: map<string, seq<string>>, reps: seq<string>, n: nat)
    requires n < |reps| && forall c :: c in reps ==> c in fc
    ensures forall size ::
      ClustersOfSize(fc, reps[..n + 1], size) == ClustersOfSize(fc, reps[..n], size) + (if |fc[reps[n]]| == size then 1 else 0)
    ensures SizesOf(fc, reps, n + 1) == SizesOf(fc, reps, n) + {|fc[reps[n]]|}
  {
    assert reps[..n + 1][..n] == reps[..n];
    assert reps[..n + 1][n] == reps[n];
  }

  /** One cluster more: its members are appended under its size. */
  lemma BySizeStep(fc: map<string, seq<string>>, reps: seq<string>, n: nat, bySize: map<nat, seq<string>>, bySize': map<nat, seq<string>>)
    requires n < |reps| && (forall c :: c in reps ==> c in fc) && BySize(fc, reps, n, bySize)
    requires var s := |fc[reps[n]]|;
      bySize' == bySize[s := (if s in bySize then bySize[s] else []) + fc[reps[n]]]
    ensures BySize(fc, reps, n + 1, bySize')
  {
    var s := |fc[reps[n]]|;
    ClustersOfSizeStep(fc, reps, n);
    var k := ClustersOfSize(fc, reps[..n], s);
    assert s * (k + 1) == s * k + s;
    assert |bySize'[s]| == s * (k + 1);
    forall size | size in bySize' ensures |bySize'[size]| == size * ClustersOfSize(fc, reps[..n + 1], size) {
    }
    forall size | size !in bySize' ensures ClustersOfSize(fc, reps[..n + 1], size) == 0 {
    }
  }

  /**
   * The `size_to_members` loop: every cluster's members appended under its
   * size. Each size lists `size` members per cluster of that size, which is
   * what makes `len(members) // size` in the log the number of such
   * clusters.
   */
  method SizeGroups(fc: map<string, seq<string>>, reps: seq<string>) returns (bySize: map<nat, seq<string>>)
    requires forall c :: c in reps ==> c in fc
    ensures forall size :: size in bySize <==> exists t :: 0 <= t < |reps| && |fc[reps[t]]| == size
    ensures forall size :: size in bySize ==> |bySize[size]| == size * ClustersOfSize(fc, reps, size)
  {
    bySize := map[];
    var i := 0;
    while i < |reps|
      invariant i <= |reps|
      invariant BySize(fc, reps, i, bySize)
    {
      var c := reps[i];
      var members := fc[c];
      var size := |members|;
      var listed := if size in bySize then bySize[size] else [];
      ghost var before := bySize;
      bySize := bySize[size := listed + members];
      BySizeStep(fc, reps, i, before, bySize);
      i := i + 1;
    }
    assert reps[..i] == reps;
  }

  /** The use-case files that share a sequence name with the family, with the size of the overlap. */
  function Commons(splitSet: set<string>, useCases: seq<(string, set<string>)>): seq<(string, nat)>
  {
    if useCases == [] then []
    else
      var last := useCases[|useCases| - 1];
      var common := splitSet * last.1;
      Commons(splitSet, useCases[..|useCases| - 1]) + (if common != {} then [(last.0, |common|)] else [])
  }

  /** Every family name some use-case file also has. */
  ghost function MatchedOf(splitSet: set<string>, useCases: seq<(string, set<string>)>): set<string>
  {
    set k, x | 0 <= k < |useCases| && x in splitSet * useCases[k].1 :: x
  }

  /**
   * The use-case loops of `analyze_fasta_file`: `common_count_by_file` as its
   * entries in file order, and the family names no use-case file shares.
   */
  method Overlaps(splitSet: set<string>, useCases: seq<(string, set<string>)>)
    returns (commonCount: seq<(string, nat)>, unmatched: set<string>)
    ensures commonCount == Commons(splitSet, useCases)
    ensures unmatched == splitSet - MatchedOf(splitSet, useCases)
  {
    commonCount := [];
    var i := 0;
    while i < |useCases|
      invariant i <= |useCases|
      invariant commonCount == Commons(splitSet, useCases[..i])
    {
      assert useCases[..i + 1][..i] == useCases[..i];
      var common := splitSet * useCases[i].1;
      if common != {} {
        commonCount := commonCount + [(useCases[i].0, |common|)];
      }
      i := i + 1;
    }
    assert useCases[..i] == useCases;
    var matched: set<string> := {};
    i := 0;
    while i < |useCases|
      invariant i <= |useCases|
      invariant matched == MatchedOf(splitSet, useCases[..i])
    {
      assert forall k :: 0 <= k < i ==> useCases[..i + 1][k] == useCases[..i][k];
      assert useCases[..i + 1][i] == useCases[i];
      matched := matched + splitSet * useCases[i].1;
      i := i + 1;
    }
    assert useCases[..i] == useCases;
    unmatched := splitSet - matched;
  }

  function TotalMatched(cc: seq<(string, nat)>): nat
  {
    if cc == [] then 0 else TotalMatched(cc[..|cc| - 1]) + cc[|cc| - 1].1
  }

  /** The largest overlap, the first one on ties; 0 for no entries. */
  function TopMatch(cc: seq<(string, nat)>): (top: nat)
    ensures forall k :: 0 <= k < |cc| ==> cc[k].1 <= top
    ensures cc != [] ==> exists k :: 0 <= k < |cc| && cc[k].1 == top
  {
    if cc == [] then 0
    else
      var t := TopMatch(cc[..|cc| - 1]);
      var last := cc[|cc| - 1].1;
      assert forall k :: 0 <= k < |cc| - 1 ==> cc[..|cc| - 1][k] == cc[k];
      if last > t then last else t
  }

  /** The tag of lines 120-131; `top >= 0.5 * n` is the integer test `2 * top >= n`. */
  function MatchTag(cc: seq<(string, nat)>, n: nat): Tag
  {
    if TotalMatched(cc) == 0 then Vanished
    else if 2 * TopMatch(cc) >= n then Matched
    else if |cc| > 1 then Split
    else Partial
  }

  /** Every entry of `Commons` names a non-empty overlap no larger than the family. */
  lemma {:induction false} CommonsBounds(splitSet: set<string>, useCases: seq<(string, set<string>)>)
    ensures forall k :: 0 <= k < |Commons(splitSet, useCases)| ==>
      1 <= Commons(splitSet, useCases)[k].1 <= |splitSet|
    ensures Commons(splitSet, useCases) == [] <==> forall k :: 0 <= k < |useCases| ==> splitSet * useCases[k].1 == {}
  {
    if useCases != [] {
      var init := useCases[..|useCases| - 1];
      var last := useCases[|useCases| - 1];
      CommonsBounds(splitSet, init);
      assert forall k :: 0 <= k < |init| ==> init[k] == useCases[k];
      var common := splitSet * last.1;
      if common != {} {
        assert common <= splitSet;
        SubsetCard(common, splitSet);
      }
    }
  }

  lemma SubsetCard(a: set<string>, b: set<string>)
    requires a <= b
    ensures |a| <= |b|
  {
    assert b == a + (b - a);
  }

  lemma {:induction false} TotalPositive(cc: seq<(string, nat)>)
    requires forall k :: 0 <= k < |cc| ==> cc[k].1 >= 1
    ensures TotalMatched(cc) == 0 <==> cc == []
  {
    if cc != [] {
      TotalPositive(cc[..|cc| - 1]);
    }
  }

  /**
   * When a family is tagged vanished: exactly when no use-case file shares
   * one of its names, which is exactly when every name is unmatched.
   */
  lemma MatchTagVanished(splitSet: set<string>, useCases: seq<(string, set<string>)>)
    ensures var tag := MatchTag(Commons(splitSet, useCases), |splitSet|);
      && (tag == Vanished <==> forall k :: 0 <= k < |useCases| ==> splitSet * useCases[k].1 == {})
      && (tag == Vanished <==> splitSet - MatchedOf(splitSet, useCases) == splitSet)
  {
    var cc := Commons(splitSet, useCases);
    CommonsBounds(splitSet, useCases);
    TotalPositive(cc);
    assert MatchTag(cc, |splitSet|) == Vanished <==> cc == [];
    if forall k :: 0 <= k < |useCases| ==> splitSet * useCases[k].1 == {} {
      NothingMatched(splitSet, useCases);
    } else {
      var k :| 0 <= k < |useCases| && splitSet * useCases[k].1 != {};
      var x :| x in splitSet * useCases[k].1;
      SomethingMatched(splitSet, useCases, k, x);
    }
  }

  lemma NothingMatched(splitSet: set<string>, useCases: seq<(string, set<string>)>)
    requires forall k :: 0 <= k < |useCases| ==> splitSet * useCases[k].1 == {}
    ensures MatchedOf(splitSet, useCases) == {}
  {
  }

  lemma SomethingMatched(splitSet: set<string>, useCases: seq<(string, set<string>)>, k: nat, x: string)
    requires k < |useCases| && x in splitSet * useCases[k].1
    ensures splitSet - MatchedOf(splitSet, useCases) != splitSet
  {
    assert x in MatchedOf(splitSet, useCases);
    assert x !in splitSet - MatchedOf(splitSet, useCases);
  }

  /**
   * The other tags. Matched exactly when some file shares at least half of
   * the family's names. Split when several files share names but none half
   * of them, and partial when only one file does and it shares less than
   * half.
   */
  lemma MatchTagMeans(splitSet: set<string>, useCases: seq<(string, set<string>)>)
    ensures var cc := Commons(splitSet, useCases);
      var n := |splitSet|;
      var tag := MatchTag(cc, n);
      && (tag == Matched <==> exists k :: 0 <= k < |cc| && 2 * cc[k].1 >= n)
      && (tag == Split ==> |cc| > 1 && forall k :: 0 <= k < |cc| ==> 2 * cc[k].1 < n)
      && (tag == Partial ==> |cc| == 1 && 2 * cc[0].1 < n)
  {
    var cc := Commons(splitSet, useCases);
    CommonsBounds(splitSet, useCases);
    TotalPositive(cc);
  }

  /** `split("/")[0]` of every id: the family's sequence names. */
  ghost function SplitSet(seqIds: seq<string>): set<string>
  {
    set k | 0 <= k < |seqIds| :: Before(seqIds[k], '/')
  }

  /** The clusters the family's ids fall in that hold exactly `size` of them. */
  ghost function SizedClusters(seqIds: seq<string>, m: map<string, string>, size: nat): set<string>
  {
    set c | c in HitClusters(seqIds, |seqIds|, m) && |InCluster(seqIds, m, c)| == size
  }

  /** Counted over the grouping's key order, the clusters of one size are the family's clusters of that size. */
  lemma SizedCount(seqIds: seq<string>, m: map<string, string>, groups: map<string, seq<string>>, reps: seq<string>, size: nat)
    requires groups.Keys == HitClusters(seqIds, |seqIds|, m)
    requires NoRepeats(reps) && forall c :: c in groups <==> c in reps
    requires forall c :: c in groups ==> groups[c] == InCluster(seqIds, m, c)
    ensures ClustersOfSize(groups, reps, size) == |SizedClusters(seqIds, m, size)|
  {
    ClustersOfSizeCount(groups, reps, size);
    assert OfSize(groups, reps, size) == SizedClusters(seqIds, m, size);
  }

  /** What `analyze_fasta_file` computes about one family, without its floating-point average. */
  datatype Analysis = Analysis(
    clusterCount: nat,
    bySize: map<nat, seq<string>>,
    commonCount: seq<(string, nat)>,
    unmatched: set<string>,
    tag: Tag,
    splitSet: set<string>)

  /**
   * `analyze_fasta_file` over the family's ids. The cluster count is the
   * number of clusters the family's ids fall in; each logged size is the
   * size of some cluster of the family, and lists `size` members per
   * cluster of that size; the use-case files are those of a dictionary, so
   * their names are distinct; the overlaps, the unmatched names and the tag are
   * those of the family's names against the use-case files.
   */
  method AnalyzeFamily(seqIds: seq<string>, m: map<string, string>, useCases: seq<(string, set<string>)>)
    returns (a: Analysis)
    requires forall j, k :: 0 <= j < k < |useCases| ==> useCases[j].0 != useCases[k].0
    ensures a.splitSet == SplitSet(seqIds)
    ensures a.clusterCount == |HitClusters(seqIds, |seqIds|, m)|
    ensures forall size :: size in a.bySize <==>
      exists c :: c in HitClusters(seqIds, |seqIds|, m) && |InCluster(seqIds, m, c)| == size
    ensures forall size :: size in a.bySize ==> |a.bySize[size]| == size * |SizedClusters(seqIds, m, size)|
    ensures a.commonCount == Commons(a.splitSet, useCases)
    ensures a.unmatched == a.splitSet - MatchedOf(a.splitSet, useCases)
    ensures a.tag == MatchTag(a.commonCount, |a.splitSet|)
  {
    var splitSet: set<string> := {};
    var i := 0;
    while i < |seqIds|
      invariant i <= |seqIds|
      invariant splitSet == set k | 0 <= k < i :: Before(seqIds[k], '/')
    {
      splitSet := splitSet + {Before(seqIds[i], '/')};
      i := i + 1;
    }
    var groups, reps := GroupByCluster(seqIds, m);
    var bySize := SizeGroups(groups, reps);
    forall size ensures size in bySize <==> exists c :: c in groups && |groups[c]| == size {
      if size in bySize {
        var t :| 0 <= t < |reps| && |groups[reps[t]]| == size;
        assert reps[t] in groups;
      }
      if exists c :: c in groups && |groups[c]| == size {
        var c :| c in groups && |groups[c]| == size;
        var t :| 0 <= t < |reps| && reps[t] == c;
      }
    }
    forall size | size in bySize ensures |bySize[size]| == size * |SizedClusters(seqIds, m, size)| {
      SizedCount(seqIds, m, groups, reps, size);
    }
    var commonCount, unmatched := Overlaps(splitSet, useCases);
    a := Analysis(|groups|, bySize, commonCount, unmatched, MatchTag(commonCount, |splitSet|), splitSet);
  }
}
