/**
 * bin/remove_duplicate_branches.py: the hierarchy text is cut into clades
 * (a top-level line and the dashed lines under it), and clades are written
 * in passes from the deepest depth up, each clade only while none of its
 * InterPro codes has been written already.
 */
module RemoveDuplicateBranches {
  import opened Common

  /** `count_leading_dashes`: how many `--` pairs the line starts with (`^(--)+`). */
  function CountLeadingDashes(line: string): (k: nat)
    ensures 2 * k <= |line|
    ensures forall i :: 0 <= i < 2 * k ==> line[i] == '-'
    ensures !(2 * k + 2 <= |line| && line[2 * k] == '-' && line[2 * k + 1] == '-')
    decreases |line|
  {
    if 2 <= |line| && line[0] == '-' && line[1] == '-' then
      var k := 1 + CountLeadingDashes(line[2..]);
      assert forall i :: 2 <= i < 2 * k ==> line[i] == line[2..][i - 2];
      k
    else 0
  }

  /** `IPR` followed by six ASCII digits. */
  predicate IsIprCode(s: string)
  {
    |s| == 9 && s[..3] == "IPR" && forall i :: 3 <= i < 9 ==> IsDigit(s[i])
  }

  /** A match of `IPR\d{6}` starts at position `i` of `line`. */
  predicate IprAt(line: string, i: int)
  {
    0 <= i && i + 9 <= |line| && IsIprCode(line[i..i + 9])
  }

  /**
   * Two matches never overlap: an `I` cannot sit inside `PR` or the digits
   * of an earlier match. So the non-overlapping matches `findall` reports
   * are all the positions where the pattern matches.
   */
  lemma IprMatchesApart(line: string, i: int, j: int)
    requires IprAt(line, i) && IprAt(line, j) && i < j
    ensures j >= i + 9
  {
    forall q | i < q < i + 9 ensures !IprAt(line, q) {
      assert line[q] == line[i..i + 9][q - i];
      if q + 9 <= |line| {
        assert line[q..q + 9][0] == line[q];
      }
    }
  }

  /** `ipr_pattern.findall(line)`, as a set. */
  function IprCodes(line: string): (r: set<string>)
    ensures forall x :: x in r ==> IsIprCode(x)
  {
    set i | 0 <= i <= |line| - 9 && IprAt(line, i) :: line[i..i + 9]
  }

  /** The codes that occur in the lines of a clade. */
  function CladeIprs(clade: seq<string>): set<string>
  {
    if clade == [] then {} else CladeIprs(clade[..|clade| - 1]) + IprCodes(clade[|clade| - 1])
  }

  /** The codes of a clade are the codes found in its lines, and each is `IPR` plus six digits. */
  lemma {:induction false} CladeIprsMeans(clade: seq<string>)
    ensures forall x :: x in CladeIprs(clade) ==> IsIprCode(x)
    ensures forall x :: x in CladeIprs(clade) <==> exists l :: 0 <= l < |clade| && x in IprCodes(clade[l])
  {
    if clade != [] {
      var init := clade[..|clade| - 1];
      CladeIprsMeans(init);
      assert forall l :: 0 <= l < |init| ==> init[l] == clade[l];
    }
  }

  /** `extract_iprs`: the loop gathers every code of every line of the clade. */
  method ExtractIprs(clade: seq<string>) returns (iprs: set<string>)
    ensures iprs == CladeIprs(clade)
  {
    iprs := {};
    for l := 0 to |clade|
      invariant iprs == CladeIprs(clade[..l])
    {
      assert clade[..l + 1][..l] == clade[..l];
      iprs := iprs + IprCodes(clade[l]);
    }
    assert clade[..|clade|] == clade;
  }

  /** `line.rstrip('\n')`. */
  function TrimNewlines(line: string): (r: string)
    ensures |r| <= |line| && r == line[..|r|]
    ensures r == [] || r[|r| - 1] != '\n'
    ensures forall i :: |r| <= i < |line| ==> line[i] == '\n'
  {
    if line != [] && line[|line| - 1] == '\n' then TrimNewlines(line[..|line| - 1]) else line
  }

  /**
   * `[line.rstrip('\n') for line in f if line.strip()]`: the lines that
   * are not blank, in order, without their newline.
   */
  function KeepLines(raw: seq<string>): (r: seq<string>)
    ensures |r| == CountWhere(raw, (line: string) => !AllSpace(line))
    ensures forall k :: 0 <= k < |r| ==> !AllSpace(r[k]) && (r[k] == [] || r[k][|r[k]| - 1] != '\n')
  {
    if raw == [] then []
    else
      var line := raw[|raw| - 1];
      var r := KeepLines(raw[..|raw| - 1]);
      if AllSpace(line) then r
      else
        var t := TrimNewlines(line);
        assert !AllSpace(t) by {
          var i :| 0 <= i < |line| && !IsSpace(line[i]);
          assert i < |t| by { assert IsSpace('\n'); }
          assert t[i] == line[i];
        }
        r + [t]
  }

  /** `line.strip()` is not empty. */
  predicate NonBlank(line: string)
  {
    !AllSpace(line)
  }

  /** Every line of `lines` with its trailing newlines removed, in order. */
  function TrimAll(lines: seq<string>): (r: seq<string>)
    ensures |r| == |lines|
  {
    seq(|lines|, k requires 0 <= k < |lines| => TrimNewlines(lines[k]))
  }

  /**
   * The kept lines are the non-blank input lines, each in its input order
   * and without its newline: the filter comes first, the trimming second.
   */
  lemma {:induction false} KeepLinesMeans(raw: seq<string>)
    ensures KeepLines(raw) == TrimAll(Filter(raw, NonBlank))
  {
    if raw != [] {
      var init := raw[..|raw| - 1];
      KeepLinesMeans(init);
      var f := Filter(init, NonBlank);
      assert Filter(raw, NonBlank) == if NonBlank(raw[|raw| - 1]) then f + [raw[|raw| - 1]] else f;
      if NonBlank(raw[|raw| - 1]) {
        assert TrimAll(f + [raw[|raw| - 1]]) == TrimAll(f) + [TrimNewlines(raw[|raw| - 1])];
      }
    }
  }

  /** `line.startswith('--')`. */
  predicate Dashed(line: string)
  {
    StartsWith(line, "--")
  }

  /**
   * What cutting lines into clades yields: non-empty blocks that put the
   * lines back together in order, where only a block's first line may be
   * undashed and every block but the first starts undashed.
   */
  ghost predicate CladesOf(lines: seq<string>, clades: seq<seq<string>>)
  {
    && Flatten(clades) == lines
    && (forall c :: 0 <= c < |clades| ==> clades[c] != [])
    && (forall c :: 0 < c < |clades| ==> !Dashed(clades[c][0]))
    && (forall c, l :: 0 <= c < |clades| && 0 < l < |clades[c]| ==> Dashed(clades[c][l]))
  }

  lemma {:induction false} FlattenSnoc(bs: seq<seq<string>>, b: seq<string>)
    ensures Flatten(bs + [b]) == Flatten(bs) + b
  {
    if bs == [] {
      assert [b][1..] == [];
    } else {
      assert (bs + [b])[1..] == bs[1..] + [b];
      FlattenSnoc(bs[1..], b);
    }
  }

  /**
   * The state of the cutting loop after `i` lines: the closed clades and
   * the open one put the lines read back together, and each already has the
   * shape `CladesOf` asks for.
   */
  ghost predicate Cutting(lines: seq<string>, i: nat, clades: seq<seq<string>>, current: seq<string>)
    requires i <= |lines|
  {
    && Flatten(clades) + current == lines[..i]
    && (forall c :: 0 <= c < |clades| ==> clades[c] != [])
    && (forall c :: 0 < c < |clades| ==> !Dashed(clades[c][0]))
    && (forall c, l :: 0 <= c < |clades| && 0 < l < |clades[c]| ==> Dashed(clades[c][l]))
    && (forall l :: 0 < l < |current| ==> Dashed(current[l]))
    && (current != [] && clades != [] ==> !Dashed(current[0]))
    && (current == [] ==> clades == [])
  }

  /** Closing the open clade keeps the shape. */
  lemma Close(clades: seq<seq<string>>, current: seq<string>, clades': seq<seq<string>>)
    requires current != [] && clades' == clades + [current]
    requires forall c :: 0 <= c < |clades| ==> clades[c] != []
    requires forall c :: 0 < c < |clades| ==> !Dashed(clades[c][0])
    requires forall c, l :: 0 <= c < |clades| && 0 < l < |clades[c]| ==> Dashed(clades[c][l])
    requires forall l :: 0 < l < |current| ==> Dashed(current[l])
    requires clades != [] ==> !Dashed(current[0])
    ensures Flatten(clades') == Flatten(clades) + current
    ensures forall c :: 0 <= c < |clades'| ==> clades'[c] != []
    ensures forall c :: 0 < c < |clades'| ==> !Dashed(clades'[c][0])
    ensures forall c, l :: 0 <= c < |clades'| && 0 < l < |clades'[c]| ==> Dashed(clades'[c][l])
  {
    FlattenSnoc(clades, current);
    assert forall c :: 0 <= c < |clades| ==> clades'[c] == clades[c];
    assert clades'[|clades|] == current;
  }

  /** One line more: an undashed line closes the open clade and opens its own, a dashed one joins the open clade. */
  lemma CutStep(lines: seq<string>, i: nat, clades: seq<seq<string>>, current: seq<string>,
                clades': seq<seq<string>>, current': seq<string>)
    requires i < |lines| && Cutting(lines, i, clades, current)
    requires !Dashed(lines[i]) ==> clades' == (if current != [] then clades + [current] else clades) && current' == [lines[i]]
    requires Dashed(lines[i]) ==> clades' == clades && current' == current + [lines[i]]
    ensures Cutting(lines, i + 1, clades', current')
  {
    assert lines[..i + 1] == lines[..i] + [lines[i]];
    if !Dashed(lines[i]) && current != [] {
      Close(clades, current, clades');
    }
    if Dashed(lines[i]) {
      assert forall l :: 0 < l < |current| ==> current'[l] == current[l];
    }
  }

  /** The loop of lines 32-42: a new clade starts at every undashed line. */
  method SplitClades(lines: seq<string>) returns (clades: seq<seq<string>>)
    ensures CladesOf(lines, clades)
  {
    clades := [];
    var current: seq<string> := [];
    for i := 0 to |lines|
      invariant Cutting(lines, i, clades, current)
    {
      ghost var c0, cur0 := clades, current;
      var line := lines[i];
      if !Dashed(line) {
        if current != [] {
          clades := clades + [current];
        }
        current := [line];
      } else {
        current := current + [line];
      }
      CutStep(lines, i, c0, cur0, clades, current);
    }
    assert lines[..|lines|] == lines;
    if current != [] {
      Close(clades, current, clades + [current]);
      clades := clades + [current];
    }
  }

  /** `any(count_leading_dashes(line) >= depth for line in clade)`. */
  predicate Reaches(clade: seq<string>, depth: int)
  {
    exists l :: 0 <= l < |clade| && CountLeadingDashes(clade[l]) >= depth
  }

  /** Pass `d` visiting clade `i` comes before pass `e` visiting clade `j`: deeper passes first, then input order. */
  predicate Earlier(p: (int, nat), q: (int, nat))
  {
    p.0 > q.0 || (p.0 == q.0 && p.1 < q.1)
  }

  /**
   * What the passes have written so far: `from[k]` says in which pass and
   * for which clade `written[k]` was written. The visits are in pass order,
   * a clade is written only in a pass its depth reaches, and the written
   * clades share no code.
   */
  ghost predicate Log(clades: seq<seq<string>>, maxDepth: int, written: seq<seq<string>>, from: seq<(int, nat)>)
  {
    && |from| == |written|
    && (forall k :: 0 <= k < |from| ==>
          && 1 <= from[k].0 <= maxDepth && from[k].1 < |clades|
          && written[k] == clades[from[k].1] && Reaches(written[k], from[k].0))
    && (forall k, k' :: 0 <= k < k' < |from| ==> Earlier(from[k], from[k']))
    && (forall k, k' :: 0 <= k < k' < |written| ==> CladeIprs(written[k]) !! CladeIprs(written[k']))
  }

  /**
   * The visit of clade `i` in pass `d` was settled: if the clade reaches
   * that depth it was written then, or it shares a code with a clade
   * written before.
   */
  ghost predicate Settled(clades: seq<seq<string>>, written: seq<seq<string>>, from: seq<(int, nat)>, d: int, i: nat)
    requires i < |clades| && |from| == |written|
  {
    Reaches(clades[i], d) ==>
      || (d, i) in from
      || exists k :: 0 <= k < |from| && Earlier(from[k], (d, i)) && !(CladeIprs(written[k]) !! CladeIprs(clades[i]))
  }

  /** The codes of the written clades: `seen_iprs`. */
  function SeenOf(written: seq<seq<string>>): set<string>
  {
    if written == [] then {} else SeenOf(written[..|written| - 1]) + CladeIprs(written[|written| - 1])
  }

  /** A code is seen exactly when some written clade has it. */
  lemma {:induction false} SeenOfMeans(written: seq<seq<string>>, x: string)
    ensures x in SeenOf(written) <==> exists k :: 0 <= k < |written| && x in CladeIprs(written[k])
  {
    if written != [] {
      var init := written[..|written| - 1];
      SeenOfMeans(init, x);
      assert forall k :: 0 <= k < |init| ==> init[k] == written[k];
    }
  }

  /** Writing clade `ci` in pass `depth`, clear of every code seen, keeps the record. */
  lemma LogGrow(clades: seq<seq<string>>, maxDepth: int, written: seq<seq<string>>, from: seq<(int, nat)>,
                depth: int, ci: nat)
    requires Log(clades, maxDepth, written, from)
    requires 1 <= depth <= maxDepth && ci < |clades| && Reaches(clades[ci], depth)
    requires forall k :: 0 <= k < |from| ==> Earlier(from[k], (depth, ci))
    requires CladeIprs(clades[ci]) * SeenOf(written) == {}
    ensures Log(clades, maxDepth, written + [clades[ci]], from + [(depth, ci)])
  {
    var w := written + [clades[ci]];
    forall k | 0 <= k < |written| ensures CladeIprs(w[k]) !! CladeIprs(clades[ci]) {
      forall x | x in CladeIprs(written[k]) ensures x in SeenOf(written) {
        SeenOfMeans(written, x);
      }
      assert w[k] == written[k];
      DisjointWithin(CladeIprs(written[k]), CladeIprs(clades[ci]), SeenOf(written));
    }
  }

  /** Visits settled before stay settled when the record grows. */
  lemma SettledGrow(clades: seq<seq<string>>, written: seq<seq<string>>, from: seq<(int, nat)>,
                    depth: int, ci: nat, clade: seq<string>)
    requires |from| == |written|
    requires forall i :: 0 <= i < ci && i < |clades| ==> Settled(clades, written, from, depth, i)
    ensures forall i :: 0 <= i < ci && i < |clades| ==>
      Settled(clades, written + [clade], from + [(depth, ci)], depth, i)
  {
    var w, f := written + [clade], from + [(depth, ci)];
    forall i | 0 <= i < ci && i < |clades| ensures Settled(clades, w, f, depth, i) {
      assert Settled(clades, written, from, depth, i);
      assert forall k :: 0 <= k < |written| ==> w[k] == written[k] && f[k] == from[k];
    }
  }

  /**
   * One visit of one pass (lines 49-58): a clade sharing a code with a
   * written clade is skipped; otherwise it is written when one of its
   * lines reaches the pass's depth, and its codes become seen.
   */
  method Visit(clades: seq<seq<string>>, maxDepth: int, depth: int, ci: nat,
               written: seq<seq<string>>, ghost from: seq<(int, nat)>, seen: set<string>)
      returns (wrote: bool, written': seq<seq<string>>, ghost from': seq<(int, nat)>, seen': set<string>)
    requires 1 <= depth <= maxDepth && ci < |clades|
    requires Log(clades, maxDepth, written, from)
    requires forall k :: 0 <= k < |from| ==> Earlier(from[k], (depth, ci))
    requires seen == SeenOf(written)
    ensures Log(clades, maxDepth, written', from')
    ensures seen' == SeenOf(written')
    ensures !wrote ==> written' == written && from' == from
    ensures wrote ==> written' == written + [clades[ci]] && from' == from + [(depth, ci)]
    ensures Settled(clades, written', from', depth, ci)
  {
    var clade := clades[ci];
    var cladeIprs := ExtractIprs(clade);
    wrote, written', from', seen' := false, written, from, seen;
    if cladeIprs * seen != {} {
      var x :| x in cladeIprs * seen;
      SeenOfMeans(written, x);
      var k :| 0 <= k < |written| && x in CladeIprs(written[k]);
      assert Earlier(from[k], (depth, ci)) && !(CladeIprs(written[k]) !! CladeIprs(clades[ci]));
      return;
    }
    if Reaches(clade, depth) {
      wrote := true;
      LogGrow(clades, maxDepth, written, from, depth, ci);
      written' := written + [clade];
      from' := from + [(depth, ci)];
      seen' := seen + cladeIprs;
      assert written'[..|written'| - 1] == written;
      assert from'[|from'| - 1] == (depth, ci);
    }
  }

  /** The invariant of one pass at depth `depth` after visiting the first `ci` clades. */
  ghost predicate PassProgress(clades: seq<seq<string>>, maxDepth: int, depth: int,
                               written0: seq<seq<string>>, from0: seq<(int, nat)>, ci: nat,
                               written: seq<seq<string>>, from: seq<(int, nat)>, seen: set<string>)
    requires ci <= |clades|
  {
    && Log(clades, maxDepth, written, from)
    && written0 <= written && from0 <= from
    && (forall k :: 0 <= k < |from| ==> from[k].0 > depth || (from[k].0 == depth && from[k].1 < ci))
    && seen == SeenOf(written)
    && forall i :: 0 <= i < ci ==> Settled(clades, written, from, depth, i)
  }

  /** One turn of the pass loop: clade `ci` is visited, and every clade visited so far stays settled. */
  method Advance(clades: seq<seq<string>>, maxDepth: int, depth: int,
                 ghost written0: seq<seq<string>>, ghost from0: seq<(int, nat)>, ci: nat,
                 written: seq<seq<string>>, ghost from: seq<(int, nat)>, seen: set<string>)
      returns (written': seq<seq<string>>, ghost from': seq<(int, nat)>, seen': set<string>)
    requires 1 <= depth <= maxDepth && ci < |clades|
    requires PassProgress(clades, maxDepth, depth, written0, from0, ci, written, from, seen)
    ensures PassProgress(clades, maxDepth, depth, written0, from0, ci + 1, written', from', seen')
  {
    var wrote;
    wrote, written', from', seen' := Visit(clades, maxDepth, depth, ci, written, from, seen);
    if wrote {
      SettledGrow(clades, written, from, depth, ci, clades[ci]);
    }
    forall i | 0 <= i < ci + 1 ensures Settled(clades, written', from', depth, i) {
      if i < ci && !wrote {
        assert Settled(clades, written, from, depth, i);
      }
    }
  }

  /**
   * One pass, `for clade in clades` at depth `depth` (lines 48-58): every
   * clade is visited in order and settled; written clades and their codes
   * are added at the end of the record.
   */
  method Pass(clades: seq<seq<string>>, maxDepth: int, depth: int,
              written: seq<seq<string>>, ghost from: seq<(int, nat)>, seen: set<string>)
      returns (written': seq<seq<string>>, ghost from': seq<(int, nat)>, seen': set<string>)
    requires 1 <= depth <= maxDepth
    requires Log(clades, maxDepth, written, from)
    requires forall k :: 0 <= k < |from| ==> from[k].0 > depth
    requires seen == SeenOf(written)
    ensures Log(clades, maxDepth, written', from')
    ensures written <= written' && from <= from'
    ensures forall k :: 0 <= k < |from'| ==> from'[k].0 >= depth
    ensures seen' == SeenOf(written')
    ensures forall i :: 0 <= i < |clades| ==> Settled(clades, written', from', depth, i)
  {
    written', from', seen' := written, from, seen;
    for ci := 0 to |clades|
      invariant PassProgress(clades, maxDepth, depth, written, from, ci, written', from', seen')
    {
      written', from', seen' := Advance(clades, maxDepth, depth, written, from, ci, written', from', seen');
    }
  }

  /** A settled visit stays settled when the record only grows at its end. */
  lemma SettledStays(clades: seq<seq<string>>, w: seq<seq<string>>, f: seq<(int, nat)>,
                     written: seq<seq<string>>, from: seq<(int, nat)>, d: int, i: nat)
    requires i < |clades| && |w| == |f| && |written| == |from|
    requires w <= written && f <= from
    requires Settled(clades, w, f, d, i)
    ensures Settled(clades, written, from, d, i)
  {
    assert forall k :: 0 <= k < |f| ==> written[k] == w[k] && from[k] == f[k];
    if (d, i) in f {
      var k :| 0 <= k < |f| && f[k] == (d, i);
      assert from[k] == (d, i);
    }
  }

  /**
   * The passes of lines 44-58, deepest first: `from[k]` says in which pass
   * and for which clade `written[k]` was written. Every visit of every
   * pass is settled, so a clade without codes is written in every pass its
   * depth reaches, and with `maxDepth < 1` nothing is written.
   */
  method SelectClades(clades: seq<seq<string>>, maxDepth: int)
      returns (written: seq<seq<string>>, ghost from: seq<(int, nat)>)
    ensures Log(clades, maxDepth, written, from)
    ensures forall d, i :: 1 <= d <= maxDepth && 0 <= i < |clades| ==> Settled(clades, written, from, d, i)
  {
    var seen: set<string> := {};
    written, from := [], [];
    var depth := maxDepth;
    while depth > 0
      invariant depth <= maxDepth
      invariant Log(clades, maxDepth, written, from)
      invariant forall k :: 0 <= k < |from| ==> from[k].0 > depth
      invariant seen == SeenOf(written)
      invariant forall d, i :: depth < d <= maxDepth && 0 <= i < |clades| ==> Settled(clades, written, from, d, i)
    {
      ghost var w, f := written, from;
      written, from, seen := Pass(clades, maxDepth, depth, written, from, seen);
      forall d, i | depth < d <= maxDepth && 0 <= i < |clades| ensures Settled(clades, written, from, d, i) {
        SettledStays(clades, w, f, written, from, d, i);
      }
      depth := depth - 1;
    }
  }

  /** A clade without codes never clashes, so it is written in every pass its depth reaches. */
  lemma CodelessAlwaysWritten(clades: seq<seq<string>>, maxDepth: int, written: seq<seq<string>>,
                              from: seq<(int, nat)>, d: int, i: nat)
    requires Log(clades, maxDepth, written, from)
    requires forall d, i :: 1 <= d <= maxDepth && 0 <= i < |clades| ==> Settled(clades, written, from, d, i)
    requires 1 <= d <= maxDepth && i < |clades| && Reaches(clades[i], d) && CladeIprs(clades[i]) == {}
    ensures (d, i) in from
  {
    assert Settled(clades, written, from, d, i);
  }

  /** A clade with codes is written at most once, and no clade that is never reached is written. */
  lemma WrittenOnce(clades: seq<seq<string>>, maxDepth: int, written: seq<seq<string>>, from: seq<(int, nat)>)
    requires Log(clades, maxDepth, written, from)
    ensures forall k, k' :: 0 <= k < k' < |written| && CladeIprs(written[k]) != {} ==> written[k] != written[k']
    ensures forall k :: 0 <= k < |written| ==> Reaches(written[k], 1)
  {
    forall k | 0 <= k < |written| ensures Reaches(written[k], 1) {
      var l :| 0 <= l < |written[k]| && CountLeadingDashes(written[k][l]) >= from[k].0;
    }
  }

  /** What lines 61-63 write: each clade's lines joined by newlines, plus a final newline. */
  function OutputText(written: seq<seq<string>>): string
  {
    if written == [] then [] else Join(written[0], '\n') + "\n" + OutputText(written[1..])
  }

  /** The lines of the written clades, each ended by a newline. */
  function Terminated(lines: seq<string>): string
  {
    if lines == [] then [] else lines[0] + "\n" + Terminated(lines[1..])
  }

  lemma {:induction false} JoinTerminated(lines: seq<string>)
    requires lines != []
    ensures Join(lines, '\n') + "\n" == Terminated(lines)
  {
    if |lines| > 1 {
      JoinTerminated(lines[1..]);
    }
  }

  lemma {:induction false} TerminatedAppend(xs: seq<string>, ys: seq<string>)
    ensures Terminated(xs + ys) == Terminated(xs) + Terminated(ys)
  {
    if xs != [] {
      assert (xs + ys)[1..] == xs[1..] + ys;
      TerminatedAppend(xs[1..], ys);
    } else {
      assert xs + ys == ys;
    }
  }

  /**
   * `main` from the lines read to the text written: the non-blank lines
   * without their newlines are cut into clades, the passes from `maxDepth`
   * down select the written clades, and the text is every line of every
   * written clade, in order, each followed by a newline.
   */
  method RemoveBranches(raw: seq<string>, maxDepth: int)
      returns (text: string, clades: seq<seq<string>>, written: seq<seq<string>>, ghost from: seq<(int, nat)>)
    ensures CladesOf(TrimAll(Filter(raw, NonBlank)), clades)
    ensures Log(clades, maxDepth, written, from)
    ensures forall d, i :: 1 <= d <= maxDepth && 0 <= i < |clades| ==> Settled(clades, written, from, d, i)
    ensures text == OutputText(written) && text == Terminated(Flatten(written))
  {
    var lines := KeepLines(raw);
    KeepLinesMeans(raw);
    clades := SplitClades(lines);
    written, from := SelectClades(clades, maxDepth);
    text := OutputText(written);
    OutputIsLines(written);
  }

  /** The output is every line of every written clade, in order, each followed by a newline. */
  lemma {:induction false} OutputIsLines(written: seq<seq<string>>)
    requires forall c :: 0 <= c < |written| ==> written[c] != []
    ensures OutputText(written) == Terminated(Flatten(written))
  {
    if written != [] {
      OutputIsLines(written[1..]);
      JoinTerminated(written[0]);
      TerminatedAppend(written[0], Flatten(written[1..]));
    }
  }
}
