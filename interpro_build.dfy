/**
 * `build_tree_from_text` of bin/sample_interpro.py: one node per line of
 * the indented hierarchy, `<dashes><id>[::<label>]`, with a "rail" of the
 * last node seen at each depth to find every node's parent.
 */
module InterproBuild {
  import opened Common
  import opened InterproTree

  /** What one non-blank line says: its depth, identifier and label. */
  datatype Entry = Entry(depth: nat, id: string, annotation: string)

  /** The builder's failure: line `entry` (counting non-blank lines) has no rail slot for its parent. */
  datatype BuildError = MissingParent(entry: nat)

  /** The builder's answer: the last root seen and the identifier table. */
  datatype Built = Built(root: Option<nat>, byId: map<string, nat>)

  /** The number of `-` characters the line starts with. */
  function LeadingDashes(line: string): (k: nat)
    ensures k <= |line|
    ensures forall i :: 0 <= i < k ==> line[i] == '-'
    ensures k == |line| || line[k] != '-'
  {
    if line == [] || line[0] != '-' then 0 else 1 + LeadingDashes(line[1..])
  }

  /** `::` starts at position `i` of `s`. */
  predicate SepAt(s: string, i: int)
  {
    0 <= i && i + 1 < |s| && s[i] == ':' && s[i + 1] == ':'
  }

  predicate NoSep(s: string)
  {
    forall i :: 0 <= i < |s| ==> !SepAt(s, i)
  }

  /** Position of the first `::` in `s`, or `|s|` when there is none. */
  function SepIndex(s: string): (k: nat)
    ensures k <= |s|
    ensures k < |s| ==> SepAt(s, k)
    ensures forall i :: 0 <= i < k ==> !SepAt(s, i)
  {
    if |s| < 2 then |s|
    else if s[0] == ':' && s[1] == ':' then 0
    else
      var k := 1 + SepIndex(s[1..]);
      assert forall i :: 1 <= i < |s| ==> (SepAt(s, i) <==> SepAt(s[1..], i - 1));
      k
  }

  /** `f` is `s.split("::")[0]`: the text of `s` before its first `::`. */
  predicate IsFirstField(s: string, f: string)
  {
    && NoSep(f)
    && (s == f || (StartsWith(s, f + "::") && (f == [] || f[|f| - 1] != ':')))
  }

  lemma {:induction false} FirstFieldAtSep(s: string)
    ensures IsFirstField(s, s[..SepIndex(s)])
  {
    var k := SepIndex(s);
    var f := s[..k];
    forall i | 0 <= i < |f| ensures !SepAt(f, i) {
      assert SepAt(f, i) ==> SepAt(s, i);
    }
    if k < |s| {
      assert s[..k + 2] == f + "::";
      if k > 0 {
        assert !SepAt(s, k - 1);
      }
    }
  }

  /** `f` is `s.split("::")[1]` when there is a second field, and "" otherwise. */
  predicate IsSecondField(s: string, f: string)
  {
    var k := SepIndex(s);
    if k == |s| then f == [] else IsFirstField(s[k + 2..], f)
  }

  /** The text between the first and the second `::` of `s`, or "" when `s` has no `::`. */
  function SecondField(s: string): (f: string)
    ensures IsSecondField(s, f)
  {
    var k := SepIndex(s);
    if k == |s| then []
    else
      var rest := s[k + 2..];
      FirstFieldAtSep(rest);
      rest[..SepIndex(rest)]
  }

  /**
   * One line of the tree text: its depth is the number of leading dashes
   * halved and rounded down; the dashes and then the surrounding
   * whitespace are removed; a line with nothing left is skipped; the
   * identifier is the text before the first `::` and the label the second
   * `::`-field, or "".
   */
  function ParseLine(line: string): Option<Entry>
  {
    var k := LeadingDashes(line);
    var body := Strip(line[k..]);
    if body == [] then None
    else Some(Entry(k / 2, body[..SepIndex(body)], SecondField(body)))
  }

  /** What `ParseLine` reads out of a line. */
  lemma ParseLineMeans(line: string)
    ensures var r := ParseLine(line);
      && (r.None? <==> AllSpace(line[LeadingDashes(line)..]))
      && (r.Some? ==> r.value.depth == LeadingDashes(line) / 2)
      && (r.Some? ==> IsFirstField(Strip(line[LeadingDashes(line)..]), r.value.id))
      && (r.Some? ==> IsSecondField(Strip(line[LeadingDashes(line)..]), r.value.annotation))
  {
    var body := Strip(line[LeadingDashes(line)..]);
    if body != [] {
      FirstFieldAtSep(body);
    }
  }

  /** The entries of the non-blank lines, in order. */
  function Entries(lines: seq<string>): seq<Entry>
  {
    if lines == [] then []
    else
      var es := Entries(lines[..|lines| - 1]);
      match ParseLine(lines[|lines| - 1])
      case None => es
      case Some(e) => es + [e]
  }

  /** The last of the first `upto` entries that sits at depth `d`: what `stack[d]` holds then. */
  function LastAtDepth(es: seq<Entry>, upto: nat, d: nat): (r: Option<nat>)
    requires upto <= |es|
    ensures r.Some? ==> r.value < upto && es[r.value].depth == d
  {
    if upto == 0 then None
    else if es[upto - 1].depth == d then Some(upto - 1)
    else LastAtDepth(es, upto - 1, d)
  }

  /** `LastAtDepth` finds the latest such entry, and finds nothing only when there is none. */
  lemma {:induction false} LastAtDepthIsLatest(es: seq<Entry>, upto: nat, d: nat)
    requires upto <= |es|
    ensures var r := LastAtDepth(es, upto, d);
      && (r.Some? ==> forall k :: r.value < k < upto ==> es[k].depth != d)
      && (r.None? ==> forall k :: 0 <= k < upto ==> es[k].depth != d)
  {
    if upto > 0 && es[upto - 1].depth != d {
      LastAtDepthIsLatest(es, upto - 1, d);
    }
  }

  /** The last of the first `upto` entries with identifier `id`: what `nodes[id]` holds then. */
  function LastWithId(es: seq<Entry>, upto: nat, id: string): (r: Option<nat>)
    requires upto <= |es|
    ensures r.Some? ==> r.value < upto && es[r.value].id == id
  {
    if upto == 0 then None
    else if es[upto - 1].id == id then Some(upto - 1)
    else LastWithId(es, upto - 1, id)
  }

  /** `LastWithId` finds the latest entry with that identifier, and nothing only when there is none. */
  lemma {:induction false} LastWithIdIsLatest(es: seq<Entry>, upto: nat, id: string)
    requires upto <= |es|
    ensures var r := LastWithId(es, upto, id);
      && (r.Some? ==> forall k :: r.value < k < upto ==> es[k].id != id)
      && (r.None? ==> forall k :: 0 <= k < upto ==> es[k].id != id)
  {
    if upto > 0 && es[upto - 1].id != id {
      LastWithIdIsLatest(es, upto - 1, id);
    }
  }

  /** Entry `k` is not a root and no earlier entry sits one level above it. */
  predicate Orphan(es: seq<Entry>, k: nat)
    requires k < |es|
  {
    es[k].depth > 0 && LastAtDepth(es, k, es[k].depth - 1).None?
  }

  /** The parent entry `k` gets: the most recent earlier entry one level up. */
  function ParentOf(es: seq<Entry>, k: nat): Option<nat>
    requires k < |es|
  {
    if es[k].depth == 0 then None else LastAtDepth(es, k, es[k].depth - 1)
  }

  lemma {:induction false} LastAtDepthPrefix(es: seq<Entry>, fs: seq<Entry>, upto: nat, d: nat)
    requires es <= fs && upto <= |es|
    ensures LastAtDepth(fs, upto, d) == LastAtDepth(es, upto, d)
  {
    if upto > 0 {
      assert fs[upto - 1] == es[upto - 1];
      LastAtDepthPrefix(es, fs, upto - 1, d);
    }
  }

  lemma {:induction false} LastWithIdPrefix(es: seq<Entry>, fs: seq<Entry>, upto: nat, id: string)
    requires es <= fs && upto <= |es|
    ensures LastWithId(fs, upto, id) == LastWithId(es, upto, id)
  {
    if upto > 0 {
      assert fs[upto - 1] == es[upto - 1];
      LastWithIdPrefix(es, fs, upto - 1, id);
    }
  }

  /** The entries of the first `i` lines are where the entries of all lines start. */
  lemma {:induction false} EntriesPrefix(lines: seq<string>, i: nat)
    requires i <= |lines|
    ensures Entries(lines[..i]) <= Entries(lines)
    decreases |lines|
  {
    if i < |lines| {
      var init := lines[..|lines| - 1];
      assert init[..i] == lines[..i];
      EntriesPrefix(init, i);
    } else {
      assert lines[..i] == lines;
    }
  }

  /** `stack[d]` is the last entry at depth `d`, and there is no slot for a depth never seen. */
  ghost predicate Rail(es: seq<Entry>, stack: seq<nat>)
  {
    && (forall d :: 0 <= d < |stack| ==> LastAtDepth(es, |es|, d) == Some(stack[d]))
    && (forall d: nat :: d >= |stack| ==> LastAtDepth(es, |es|, d).None?)
  }

  /** The rail update of lines 61-64: append at a new depth, overwrite otherwise, never truncate. */
  lemma RailStep(es: seq<Entry>, e: Entry, stack: seq<nat>)
    requires Rail(es, stack) && e.depth <= |stack|
    ensures Rail(es + [e], if |stack| <= e.depth then stack + [|es|] else stack[e.depth := |es|])
  {
    var fs := es + [e];
    var st := if |stack| <= e.depth then stack + [|es|] else stack[e.depth := |es|];
    forall d: nat
      ensures d < |st| ==> LastAtDepth(fs, |fs|, d) == Some(st[d])
      ensures d >= |st| ==> LastAtDepth(fs, |fs|, d).None?
    {
      LastAtDepthPrefix(es, fs, |es|, d);
      assert fs[|es|] == e;
    }
  }

  /** `nodes[id]` is the last node with identifier `id`, and only identifiers seen are keys. */
  ghost predicate IdTable(es: seq<Entry>, t: map<string, nat>)
  {
    forall id :: (id in t <==> LastWithId(es, |es|, id).Some?) &&
                 (id in t ==> LastWithId(es, |es|, id) == Some(t[id]))
  }

  lemma IdTableStep(es: seq<Entry>, e: Entry, t: map<string, nat>)
    requires IdTable(es, t)
    ensures IdTable(es + [e], t[e.id := |es|])
  {
    forall id ensures LastWithId(es + [e], |es|, id) == LastWithId(es, |es|, id) {
      LastWithIdPrefix(es, es + [e], |es|, id);
    }
  }

  /** Node `k` carries entry `k`'s identifier, label and depth, and the parent the rail gave it. */
  ghost predicate Mirrors(es: seq<Entry>, a: seq<Node>)
  {
    && |a| == |es|
    && forall k {:trigger a[k]} :: 0 <= k < |es| ==>
         && a[k].id == es[k].id && a[k].annotation == es[k].annotation
         && a[k].depth == es[k].depth && a[k].parent == ParentOf(es, k)
  }

  /** Everything the loop has built after the entries `es`. */
  ghost predicate BuiltFrom(es: seq<Entry>, a: seq<Node>)
  {
    WellFormed(a) && Mirrors(es, a)
  }

  lemma BuiltStep(es: seq<Entry>, e: Entry, a: seq<Node>, b: seq<Node>)
    requires Mirrors(es, a) && |b| == |es| + 1
    requires forall k :: 0 <= k < |es| ==>
      b[k].id == a[k].id && b[k].annotation == a[k].annotation &&
      b[k].depth == a[k].depth && b[k].parent == a[k].parent
    requires b[|es|].id == e.id && b[|es|].annotation == e.annotation && b[|es|].depth == e.depth
    requires b[|es|].parent == ParentOf(es + [e], |es|)
    ensures Mirrors(es + [e], b)
  {
    var fs := es + [e];
    forall k | 0 <= k < |fs|
      ensures b[k].id == fs[k].id && b[k].annotation == fs[k].annotation
      ensures b[k].depth == fs[k].depth && b[k].parent == ParentOf(fs, k)
    {
      if k < |es| {
        ParentOfPrefix(es, fs, k);
      }
    }
  }

  /** The parent an entry is given does not change when more entries follow it. */
  lemma ParentOfPrefix(es: seq<Entry>, fs: seq<Entry>, k: nat)
    requires es <= fs && k < |es|
    ensures ParentOf(fs, k) == ParentOf(es, k)
  {
    assert fs[k] == es[k];
    if es[k].depth > 0 {
      LastAtDepthPrefix(es, fs, k, es[k].depth - 1);
    }
  }

  /**
   * The table the builder returns names every node, and each identifier
   * leads to a node carrying it: what `tree_nodes.get(ipr)` relies on.
   */
  lemma BuiltTable(es: seq<Entry>, a: seq<Node>, byId: map<string, nat>)
    requires Mirrors(es, a) && IdTable(es, byId)
    ensures forall id :: id in byId ==> byId[id] < |a| && a[byId[id]].id == id
    ensures forall k :: 0 <= k < |a| ==> a[k].id in byId
  {
    forall k | 0 <= k < |a| ensures a[k].id in byId {
      LastWithIdIsLatest(es, |es|, a[k].id);
    }
  }

  /** Whether entry `k` is an orphan depends only on the entries up to it. */
  lemma OrphanPrefix(es: seq<Entry>, fs: seq<Entry>, k: nat)
    requires es <= fs && k < |es|
    ensures Orphan(fs, k) == Orphan(es, k)
  {
    if es[k].depth > 0 {
      LastAtDepthPrefix(es, fs, k, es[k].depth - 1);
    }
  }

  /** A new entry that finds its parent keeps every entry of the list parented. */
  lemma NoOrphanStep(es: seq<Entry>, e: Entry)
    requires forall k :: 0 <= k < |es| ==> !Orphan(es, k)
    requires e.depth > 0 ==> LastAtDepth(es, |es|, e.depth - 1).Some?
    ensures forall k :: 0 <= k <= |es| ==> !Orphan(es + [e], k)
  {
    var fs := es + [e];
    forall k | 0 <= k <= |es| ensures !Orphan(fs, k) {
      if k < |es| {
        OrphanPrefix(es, fs, k);
      } else if e.depth > 0 {
        LastAtDepthPrefix(es, fs, |es|, e.depth - 1);
      }
    }
  }

  /** A new entry without a parent is the first orphan of every list the entries so far begin. */
  lemma FirstOrphan(es: seq<Entry>, e: Entry, all: seq<Entry>)
    requires forall k :: 0 <= k < |es| ==> !Orphan(es, k)
    requires Orphan(es + [e], |es|)
    requires es + [e] <= all
    ensures Orphan(all, |es|)
    ensures forall k :: 0 <= k < |es| ==> !Orphan(all, k)
  {
    forall k | 0 <= k < |es| ensures !Orphan(all, k) {
      OrphanPrefix(es, all, k);
    }
    OrphanPrefix(es + [e], all, |es|);
  }

  /** The entry after `es` that finds its parent gets the rail slot one level up, and a root becomes the latest root. */
  lemma RailParent(es: seq<Entry>, e: Entry, stack: seq<nat>, root: Option<nat>)
    requires Rail(es, stack) && root == LastAtDepth(es, |es|, 0)
    requires e.depth > 0 ==> e.depth - 1 < |stack|
    ensures LastAtDepth(es + [e], |es| + 1, 0) == if e.depth == 0 then Some(|es|) else root
    ensures ParentOf(es + [e], |es|) == if e.depth == 0 then None else Some(stack[e.depth - 1])
  {
    var fs := es + [e];
    assert fs[|es|] == e;
    LastAtDepthPrefix(es, fs, |es|, 0);
    if e.depth > 0 {
      LastAtDepthPrefix(es, fs, |es|, e.depth - 1);
    }
  }

  /** The loop's facts about the entries `es` seen so far and the state built from them. */
  ghost predicate Progress(es: seq<Entry>, a: seq<Node>, stack: seq<nat>, root: Option<nat>, byId: map<string, nat>)
  {
    && BuiltFrom(es, a)
    && (forall k :: 0 <= k < |es| ==> !Orphan(es, k))
    && Rail(es, stack)
    && root == LastAtDepth(es, |es|, 0)
    && IdTable(es, byId)
  }

  /**
   * One turn of the builder's loop for the entry `e` of a non-blank line
   * (sample_interpro.py lines 49-64): a node is made and recorded under
   * its identifier; a root becomes the new `root`, any other node becomes
   * the child of the rail slot one level up, and the failure is reported
   * exactly when that slot does not exist; the node then takes its
   * depth's slot.
   */
  method Place(forest: Forest, e: Entry, stack: seq<nat>, byId: map<string, nat>, root: Option<nat>,
               ghost es: seq<Entry>)
      returns (n: nat, placed: bool, stack': seq<nat>, byId': map<string, nat>, root': Option<nat>)
    requires Progress(es, forest.nodes, stack, root, byId)
    modifies forest
    ensures n == |es|
    ensures placed <==> !Orphan(es + [e], |es|)
    ensures placed ==> Progress(es + [e], forest.nodes, stack', root', byId')
  {
    var fs := es + [e];
    assert fs[|es|] == e;
    ghost var before := forest.nodes;
    n := forest.NewNode(e.id, e.annotation);
    if e.depth > 0 && e.depth - 1 >= |stack| {
      assert LastAtDepth(es, |es|, e.depth - 1).None?;
      LastAtDepthPrefix(es, fs, |es|, e.depth - 1);
      placed, stack', byId', root' := false, stack, byId, root;
      return;
    }
    placed := true;
    RailParent(es, e, stack, root);
    RailStep(es, e, stack);
    NoOrphanStep(es, e);
    IdTableStep(es, e, byId);
    byId' := byId[e.id := n];
    root' := root;
    if e.depth == 0 {
      root' := Some(n);
    } else {
      forest.AddChild(stack[e.depth - 1], n);
    }
    BuiltStep(es, e, before, forest.nodes);
    if |stack| <= e.depth {
      stack' := stack + [n];
    } else {
      stack' := stack[e.depth := n];
    }
  }

  /**
   * The lines of `tree_text.strip()`, given the lines of `tree_text`: the
   * blank lines before the first non-blank line go, and that line loses its
   * leading whitespace, which can change its dash count. The trailing strip
   * is not applied: it only removes blank lines and whitespace after the
   * last line's text, which `ParseLine` drops as well.
   */
  function TextLines(raw: seq<string>): (r: seq<string>)
    ensures |r| <= |raw|
    ensures r == [] <==> forall k :: 0 <= k < |raw| ==> AllSpace(raw[k])
    ensures r != [] ==> !AllSpace(r[0]) && !IsSpace(r[0][0])
    ensures r != [] ==> r[1..] == raw[|raw| - |r| + 1..] && forall j :: 0 <= j < |raw| - |r| ==> AllSpace(raw[j])
    ensures r != [] ==> r[0] == StripLeft(raw[|raw| - |r|])
  {
    if raw == [] then []
    else if AllSpace(raw[0]) then
      var r := TextLines(raw[1..]);
      assert forall k :: 0 <= k < |raw| - 1 ==> raw[1..][k] == raw[k + 1];
      assert r != [] ==> raw[1..][|raw| - 1 - |r| + 1..] == raw[|raw| - |r| + 1..];
      r
    else [StripLeft(raw[0])] + raw[1..]
  }

  /**
   * `build_tree_from_text` over the lines of the stripped text. It fails
   * exactly when some line below depth 0 has no earlier line one level up,
   * and then at the first such line. Otherwise there is one node per
   * non-blank line, carrying that line's identifier, label and depth; each
   * non-root node's parent is the most recent earlier node one level up;
   * `root` is the last depth-0 node; and the table maps every identifier to
   * its last node.
   */
  method BuildTreeFromText(raw: seq<string>) returns (forest: Forest, r: Result<Built, BuildError>)
    ensures var es := Entries(TextLines(raw));
      r.Err? <==> exists k :: 0 <= k < |es| && Orphan(es, k)
    ensures var es := Entries(TextLines(raw));
      r.Err? ==> r.error.entry < |es| && Orphan(es, r.error.entry) &&
                 forall k :: 0 <= k < r.error.entry ==> !Orphan(es, k)
    ensures var es := Entries(TextLines(raw));
      r.Ok? ==> BuiltFrom(es, forest.nodes) && r.value.root == LastAtDepth(es, |es|, 0)
    ensures r.Ok? ==> IdTable(Entries(TextLines(raw)), r.value.byId)
  {
    forest, r := BuildFromLines(TextLines(raw));
  }

  /** The loop of `build_tree_from_text` over the given lines, one `Place` per non-blank line. */
  method BuildFromLines(lines: seq<string>) returns (forest: Forest, r: Result<Built, BuildError>)
    ensures var es := Entries(lines);
      r.Err? <==> exists k :: 0 <= k < |es| && Orphan(es, k)
    ensures var es := Entries(lines);
      r.Err? ==> r.error.entry < |es| && Orphan(es, r.error.entry) &&
                 forall k :: 0 <= k < r.error.entry ==> !Orphan(es, k)
    ensures var es := Entries(lines);
      r.Ok? ==> BuiltFrom(es, forest.nodes) && r.value.root == LastAtDepth(es, |es|, 0)
    ensures r.Ok? ==> IdTable(Entries(lines), r.value.byId)
  {
    forest := new Forest();
    var stack: seq<nat> := [];
    var nodes: map<string, nat> := map[];
    var root: Option<nat> := None;
    ghost var es: seq<Entry> := [];
    for i := 0 to |lines|
      invariant es == Entries(lines[..i])
      invariant Progress(es, forest.nodes, stack, root, nodes)
    {
      assert lines[..i + 1][..i] == lines[..i];
      var parsed := ParseLine(lines[i]);
      if parsed.None? {
        continue;
      }
      var e := parsed.value;
      var n, placed;
      n, placed, stack, nodes, root := Place(forest, e, stack, nodes, root, es);
      if !placed {
        EntriesPrefix(lines, i + 1);
        FirstOrphan(es, e, Entries(lines));
        r := Err(MissingParent(n));
        return;
      }
      es := es + [e];
    }
    assert lines[..|lines|] == lines;
    r := Ok(Built(root, nodes));
  }
}
