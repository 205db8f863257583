/**
 * The `Node` objects of bin/sample_interpro.py and the three navigation
 * queries the sampler asks of them.
 *
 * Every `Node` the builder creates lives in one arena, `Forest.nodes`; a
 * node is named by its position there, so `parent` and `children` hold
 * positions. Two nodes with the same identifier are two different arena
 * entries, exactly as two `Node` objects with the same `ipr_id` are two
 * objects; `sibling != self` compares objects, that is positions.
 */
module InterproTree {
  import opened Common

  /** One `Node`: its identifier, label, parent, children (in order) and depth. */
  datatype Node = Node(id: string, annotation: string, parent: Option<nat>, children: seq<nat>, depth: nat)

  /** What `Node(ipr_id, label)` starts out as: no parent, no children, depth 0. */
  function Fresh(id: string, annotation: string): Node
  {
    Node(id, annotation, None, [], 0)
  }

  /**
   * The links of node `i` agree with each other: each child points back to
   * `i` and was created after it, and a node with a parent is one level
   * deeper than that parent and is among its children.
   */
  ghost predicate Linked(a: seq<Node>, i: nat)
    requires i < |a|
  {
    && (forall c :: c in a[i].children ==> i < c < |a| && a[c].parent == Some(i))
    && match a[i].parent
       case None => a[i].depth == 0
       case Some(p) => p < i && i in a[p].children && a[i].depth == a[p].depth + 1
  }

  /** The arena invariant that `add_child`, used as the builder uses it, keeps. */
  ghost predicate WellFormed(a: seq<Node>)
  {
    forall i :: 0 <= i < |a| ==> Linked(a, i)
  }

  /** `i` is reached from `j` by following `parent` one or more times. */
  ghost predicate IsAncestor(a: seq<Node>, i: nat, j: nat)
    requires WellFormed(a) && j < |a|
    decreases j
  {
    match a[j].parent
    case None => false
    case Some(p) => assert Linked(a, j); p == i || IsAncestor(a, i, p)
  }

  /** The positions of the proper descendants of node `i`. */
  ghost function Desc(a: seq<Node>, i: nat): set<nat>
    requires WellFormed(a)
  {
    set j | 0 <= j < |a| && IsAncestor(a, i, j)
  }

  /** The identifiers of the nodes at positions `js`. */
  function Ids(a: seq<Node>, js: set<nat>): set<string>
  {
    set j | j in js && j < |a| :: a[j].id
  }

  /** The nodes a worklist `stack` still stands for: each entry and all below it. */
  ghost function Reach(a: seq<Node>, stack: seq<nat>): set<nat>
    requires WellFormed(a)
  {
    if stack == [] then {}
    else Reach(a, stack[..|stack| - 1]) + {stack[|stack| - 1]} + Desc(a, stack[|stack| - 1])
  }

  lemma {:induction false} ReachMember(a: seq<Node>, stack: seq<nat>, j: nat)
    requires WellFormed(a)
    ensures j in Reach(a, stack) <==>
      exists k :: 0 <= k < |stack| && (j == stack[k] || j in Desc(a, stack[k]))
  {
    if stack != [] {
      var init := stack[..|stack| - 1];
      ReachMember(a, init, j);
      assert forall k :: 0 <= k < |init| ==> init[k] == stack[k];
    }
  }

  lemma {:induction false} ReachAppend(a: seq<Node>, xs: seq<nat>, ys: seq<nat>)
    requires WellFormed(a)
    ensures Reach(a, xs + ys) == Reach(a, xs) + Reach(a, ys)
    decreases |ys|
  {
    if ys == [] {
      assert xs + ys == xs;
    } else {
      assert (xs + ys)[..|xs + ys| - 1] == xs + ys[..|ys| - 1];
      ReachAppend(a, xs, ys[..|ys| - 1]);
    }
  }

  /** A proper descendant of `i` is a child of `i` or a descendant of one. */
  lemma {:induction false} AncestorViaChild(a: seq<Node>, i: nat, j: nat)
    requires WellFormed(a) && i < |a| && j < |a|
    ensures IsAncestor(a, i, j) <==>
      exists c :: c in a[i].children && (j == c || IsAncestor(a, c, j))
    decreases j
  {
    assert Linked(a, j) && Linked(a, i);
    match a[j].parent
    case None =>
      assert forall c :: c in a[i].children ==> a[c].parent == Some(i);
    case Some(p) =>
      if p == i {
        assert j in a[i].children;
      } else {
        AncestorViaChild(a, i, p);
        if IsAncestor(a, i, p) {
          var c :| c in a[i].children && (p == c || IsAncestor(a, c, p));
          assert IsAncestor(a, c, j);
        } else {
          forall c | c in a[i].children
            ensures j != c && !IsAncestor(a, c, j)
          {
            assert a[c].parent == Some(i);
          }
        }
      }
  }

  /** Expanding the children of `i` reaches exactly the descendants of `i`. */
  lemma ChildrenReachDesc(a: seq<Node>, i: nat)
    requires WellFormed(a) && i < |a|
    ensures Reach(a, a[i].children) == Desc(a, i)
  {
    assert Linked(a, i);
    var cs := a[i].children;
    forall j | j in Reach(a, cs) ensures j in Desc(a, i) {
      ReachMember(a, cs, j);
      var k :| 0 <= k < |cs| && (j == cs[k] || j in Desc(a, cs[k]));
      assert cs[k] in cs;
      assert j < |a|;
      AncestorViaChild(a, i, j);
    }
    forall j | j in Desc(a, i) ensures j in Reach(a, cs) {
      AncestorViaChild(a, i, j);
      var c :| c in cs && (j == c || IsAncestor(a, c, j));
      var k :| 0 <= k < |cs| && cs[k] == c;
      ReachMember(a, cs, j);
    }
  }

  /** The number of root-to-node paths below and including `i`: a termination measure. */
  ghost function Size(a: seq<Node>, i: nat): nat
    requires WellFormed(a) && i < |a|
    decreases |a| - i, 1
  {
    assert Linked(a, i);
    assert forall k :: 0 <= k < |a[i].children| ==> a[i].children[k] in a[i].children;
    1 + SizeSum(a, a[i].children, i)
  }

  ghost function SizeSum(a: seq<Node>, cs: seq<nat>, above: nat): nat
    requires WellFormed(a) && above < |a|
    requires forall k :: 0 <= k < |cs| ==> above < cs[k] < |a|
    decreases |a| - above, 0, |cs|
  {
    if cs == [] then 0
    else SizeSum(a, cs[..|cs| - 1], above) + Size(a, cs[|cs| - 1])
  }

  /** Every entry of the worklist names a node of the arena. */
  ghost predicate InRange(a: seq<Node>, stack: seq<nat>)
  {
    forall k :: 0 <= k < |stack| ==> stack[k] < |a|
  }

  /** The work a worklist still holds. */
  ghost function Weight(a: seq<Node>, stack: seq<nat>): nat
    requires WellFormed(a) && InRange(a, stack)
  {
    if stack == [] then 0
    else Weight(a, stack[..|stack| - 1]) + Size(a, stack[|stack| - 1])
  }

  lemma {:induction false} WeightAppend(a: seq<Node>, xs: seq<nat>, ys: seq<nat>)
    requires WellFormed(a) && InRange(a, xs) && InRange(a, ys)
    ensures InRange(a, xs + ys)
    ensures Weight(a, xs + ys) == Weight(a, xs) + Weight(a, ys)
    decreases |ys|
  {
    if ys == [] {
      assert xs + ys == xs;
    } else {
      assert (xs + ys)[..|xs + ys| - 1] == xs + ys[..|ys| - 1];
      WeightAppend(a, xs, ys[..|ys| - 1]);
    }
  }

  lemma {:induction false} WeightIsSizeSum(a: seq<Node>, cs: seq<nat>, above: nat)
    requires WellFormed(a) && above < |a|
    requires forall k :: 0 <= k < |cs| ==> above < cs[k] < |a|
    ensures InRange(a, cs) && Weight(a, cs) == SizeSum(a, cs, above)
  {
    if cs != [] {
      WeightIsSizeSum(a, cs[..|cs| - 1], above);
    }
  }

  /**
   * `get_siblings`: empty for a node without a parent, otherwise the
   * identifiers of every other node whose parent is the same node.
   */
  function Siblings(a: seq<Node>, i: nat): (r: set<string>)
    requires WellFormed(a) && i < |a|
    ensures a[i].parent.None? ==> r == {}
    ensures a[i].parent.Some? ==>
      r == Ids(a, set j | 0 <= j < |a| && j != i && a[j].parent == a[i].parent)
  {
    match a[i].parent
    case None => {}
    case Some(p) =>
      assert Linked(a, i);
      ChildrenOf(a, p);
      set c | c in a[p].children && c != i :: a[c].id
  }

  /** The children of `p` are exactly the nodes whose parent is `p`. */
  lemma ChildrenOf(a: seq<Node>, p: nat)
    requires WellFormed(a) && p < |a|
    ensures forall j :: j in a[p].children <==> 0 <= j < |a| && a[j].parent == Some(p)
  {
    assert Linked(a, p);
    forall j | 0 <= j < |a| && a[j].parent == Some(p) ensures j in a[p].children {
      assert Linked(a, j);
    }
  }

  /** `get_direct_parent`: the parent's identifier, one level up, or nothing for a root. */
  function DirectParent(a: seq<Node>, i: nat): (r: Option<string>)
    requires WellFormed(a) && i < |a|
    ensures r.None? <==> a[i].depth == 0
    ensures r.Some? ==> exists p :: (0 <= p < i && IsAncestor(a, p, i) && a[p].id == r.value &&
                                     a[p].depth + 1 == a[i].depth && i in a[p].children)
  {
    assert Linked(a, i);
    match a[i].parent
    case None => None
    case Some(p) => Some(a[p].id)
  }

  /** The `Node` objects of one run, with `add_child` and `get_descendants`. */
  class Forest {
    var nodes: seq<Node>

    constructor ()
      ensures nodes == []
    {
      nodes := [];
    }

    /** `Node(ipr_id, label)`: a fresh node at the end of the arena. */
    method NewNode(id: string, annotation: string) returns (n: nat)
      requires WellFormed(nodes)
      modifies this
      ensures n == |old(nodes)| && nodes == old(nodes) + [Fresh(id, annotation)]
      ensures WellFormed(nodes)
    {
      ghost var a := nodes;
      n := |nodes|;
      nodes := nodes + [Fresh(id, annotation)];
      forall i | 0 <= i < |nodes| ensures Linked(nodes, i) {
        if i < n {
          assert Linked(a, i);
          if a[i].parent.Some? { assert nodes[a[i].parent.value] == a[a[i].parent.value]; }
        }
      }
    }

    /**
     * `parent.add_child(child)` for a child that has no parent and no
     * children yet and was created after `parent`, which is how the
     * builder calls it: the child is appended to the parent's children,
     * points back to the parent and sits one level below it.
     */
    method AddChild(p: nat, c: nat)
      requires WellFormed(nodes) && p < c < |nodes|
      requires nodes[c].parent.None? && nodes[c].children == []
      modifies this
      ensures nodes == old(nodes)
        [p := old(nodes)[p].(children := old(nodes)[p].children + [c])]
        [c := old(nodes)[c].(parent := Some(p), depth := old(nodes)[p].depth + 1)]
      ensures WellFormed(nodes)
    {
      ghost var a := nodes;
      nodes := nodes[p := nodes[p].(children := nodes[p].children + [c])];
      nodes := nodes[c := nodes[c].(parent := Some(p), depth := nodes[p].depth + 1)];
      forall i | 0 <= i < |nodes| ensures Linked(nodes, i) {
        assert Linked(a, i);
        assert Linked(a, c);
        if a[i].parent.Some? {
          assert Linked(a, a[i].parent.value);
        }
      }
    }

    /**
     * `get_descendants`: the worklist walk over children collects the
     * identifiers of exactly the proper descendants of node `i`.
     */
    method GetDescendants(i: nat) returns (r: set<string>)
      requires WellFormed(nodes) && i < |nodes|
      ensures r == Ids(nodes, Desc(nodes, i))
    {
      assert Linked(nodes, i);
      assert forall k :: 0 <= k < |nodes[i].children| ==> nodes[i].children[k] in nodes[i].children;
      r := {};
      ghost var visited: set<nat> := {};
      var stack: seq<nat> := nodes[i].children;
      ChildrenReachDesc(nodes, i);
      while stack != []
        invariant InRange(nodes, stack)
        invariant forall j :: j in visited ==> j < |nodes|
        invariant visited + Reach(nodes, stack) == Desc(nodes, i)
        invariant r == Ids(nodes, visited)
        decreases Weight(nodes, stack)
      {
        var s := stack[|stack| - 1];
        var init: seq<nat> := stack[..|stack| - 1];
        assert Linked(nodes, s);
        assert forall k :: 0 <= k < |nodes[s].children| ==> nodes[s].children[k] in nodes[s].children;
        WeightIsSizeSum(nodes, nodes[s].children, s);
        ChildrenReachDesc(nodes, s);
        ReachAppend(nodes, init, nodes[s].children);
        WeightAppend(nodes, init, nodes[s].children);
        r := r + {nodes[s].id};
        visited := visited + {s};
        stack := init + nodes[s].children;
      }
    }
  }
}
