/**
 * Shared vocabulary of the pipeline scripts: optional values and results,
 * FASTA records, and the few Python string operations the scripts lean on
 * (strip, split, startswith, isdigit, lower), restated over `seq<char>`.
 */
module Common {

  datatype Option<T> = None | Some(value: T)

  datatype Result<T, E> = Ok(value: T) | Err(error: E)

  /** One FASTA record as a parser hands it over: its id and its residues. */
  datatype Record = Record(id: string, residues: string)

  /** Python's whitespace for `str.strip()` and `str.split()` on the Latin-1 range. */
  predicate IsSpace(c: char)
  {
    var k := c as int;
    (9 <= k <= 13) || (28 <= k <= 32) || k == 133 || k == 160
  }

  predicate NoSpace(s: string)
  {
    forall i :: 0 <= i < |s| ==> !IsSpace(s[i])
  }

  predicate AllSpace(s: string)
  {
    forall i :: 0 <= i < |s| ==> IsSpace(s[i])
  }

  /** `s.lstrip()`: the leading whitespace is removed and nothing else. */
  function StripLeft(s: string): (r: string)
    ensures |r| <= |s|
    ensures r == [] || !IsSpace(r[0])
    ensures r == [] <==> AllSpace(s)
  {
    if s == [] || !IsSpace(s[0]) then s
    else
      var r := StripLeft(s[1..]);
      assert AllSpace(s[1..]) ==> AllSpace(s);
      r
  }

  /** `s.rstrip()`: the trailing whitespace is removed and nothing else. */
  function StripRight(s: string): (r: string)
    ensures |r| <= |s|
    ensures r == [] || !IsSpace(r[|r| - 1])
    ensures r == [] <==> AllSpace(s)
  {
    if s == [] || !IsSpace(s[|s| - 1]) then s
    else
      var r := StripRight(s[..|s| - 1]);
      assert AllSpace(s[..|s| - 1]) ==> AllSpace(s);
      r
  }

  /** Stripping on the left removes a prefix made of whitespace only. */
  lemma {:induction false} StripLeftDropsSpace(s: string)
    ensures StripLeft(s) == s[|s| - |StripLeft(s)|..]
    ensures AllSpace(s[..|s| - |StripLeft(s)|])
  {
    if s != [] && IsSpace(s[0]) {
      StripLeftDropsSpace(s[1..]);
      var r := StripLeft(s);
      assert s[..|s| - |r|] == [s[0]] + s[1..][..|s| - 1 - |r|];
    }
  }

  /** Stripping on the right removes a suffix made of whitespace only. */
  lemma {:induction false} StripRightDropsSpace(s: string)
    ensures StripRight(s) == s[..|StripRight(s)|]
    ensures AllSpace(s[|StripRight(s)|..])
  {
    if s != [] && IsSpace(s[|s| - 1]) {
      StripRightDropsSpace(s[..|s| - 1]);
      var r := StripRight(s);
      assert s[|r|..] == s[..|s| - 1][|r|..] + [s[|s| - 1]];
    }
  }

  /** `s.strip()`. */
  function Strip(s: string): (r: string)
    ensures r == [] || (!IsSpace(r[0]) && !IsSpace(r[|r| - 1]))
    ensures r == [] <==> AllSpace(s)
  {
    var t := StripLeft(s);
    var u := StripRight(t);
    StripRightDropsSpace(t);
    assert u != [] ==> u[0] == t[0];
    u
  }

  /** `s.startswith(p)`. */
  predicate StartsWith(s: string, p: string)
  {
    |p| <= |s| && s[..|p|] == p
  }

  /** `s.endswith(p)`. */
  predicate EndsWith(s: string, p: string)
  {
    |p| <= |s| && s[|s| - |p|..] == p
  }

  /** Index of the first occurrence of `c` in `s`, or `|s|` when there is none. */
  function IndexOf(s: string, c: char): (k: nat)
    ensures k <= |s|
    ensures c !in s[..k]
    ensures k < |s| ==> s[k] == c
  {
    if s == [] then 0
    else if s[0] == c then 0
    else 1 + IndexOf(s[1..], c)
  }

  /** `s.split(c, 1)[0]`: the text before the first `c`, or all of `s`. */
  function Before(s: string, c: char): (r: string)
    ensures c !in r
    ensures StartsWith(s, r)
    ensures r == s || s[|r|] == c
  {
    s[..IndexOf(s, c)]
  }

  /** `s.split(c)` for a one-character separator: every field, empty ones included. */
  function Split(s: string, c: char): (r: seq<string>)
    ensures |r| >= 1
    ensures forall i :: 0 <= i < |r| ==> c !in r[i]
    ensures Join(r, c) == s
    decreases |s|
  {
    var k := IndexOf(s, c);
    if k == |s| then [s] else [s[..k]] + Split(s[k + 1..], c)
  }

  /** The inverse of `Split`: the fields glued together with `c`. */
  function Join(fields: seq<string>, c: char): string
  {
    if fields == [] then []
    else if |fields| == 1 then fields[0]
    else fields[0] + [c] + Join(fields[1..], c)
  }

  /** Index of the first whitespace character of `s`, or `|s|`. */
  function SpaceIndex(s: string): (k: nat)
    ensures k <= |s| && NoSpace(s[..k])
    ensures k < |s| ==> IsSpace(s[k])
  {
    if s == [] || IsSpace(s[0]) then 0
    else
      var k := 1 + SpaceIndex(s[1..]);
      assert s[..k] == [s[0]] + s[1..][..k - 1];
      k
  }

  /** `s.split()`: the maximal runs of non-whitespace characters, in order. */
  function SplitWhitespace(s: string): (r: seq<string>)
    ensures forall i :: 0 <= i < |r| ==> r[i] != [] && NoSpace(r[i])
    ensures r == [] <==> AllSpace(s)
    decreases |s|
  {
    var t := StripLeft(s);
    if t == [] then []
    else
      var k := SpaceIndex(t);
      assert k > 0 by { assert !IsSpace(t[0]); }
      [t[..k]] + SplitWhitespace(t[k..])
  }

  predicate IsDigit(c: char)
  {
    '0' <= c <= '9'
  }

  /** `s.isdigit()` on ASCII digits: non-empty and every character a digit. */
  predicate IsDigits(s: string)
  {
    |s| > 0 && forall i :: 0 <= i < |s| ==> IsDigit(s[i])
  }

  /** `int(s)` for a string of ASCII digits. */
  function DigitsValue(s: string): (n: nat)
    requires forall i :: 0 <= i < |s| ==> IsDigit(s[i])
    ensures n == 0 <==> forall i :: 0 <= i < |s| ==> s[i] == '0'
  {
    if s == [] then 0
    else
      var init := s[..|s| - 1];
      assert forall i :: 0 <= i < |init| ==> init[i] == s[i];
      assert IsDigit(s[|s| - 1]);
      10 * DigitsValue(init) + (s[|s| - 1] as int - '0' as int)
  }

  /** `s.lower()` on ASCII letters. */
  function Lower(s: string): (r: string)
    ensures |r| == |s|
    ensures forall i :: 0 <= i < |s| ==>
      r[i] == (if 'A' <= s[i] <= 'Z' then (s[i] as int + 32) as char else s[i])
  {
    seq(|s|, i requires 0 <= i < |s| => if 'A' <= s[i] <= 'Z' then (s[i] as int + 32) as char else s[i])
  }

  /** The number of elements of `xs` that satisfy `p`. */
  function CountWhere<T>(xs: seq<T>, p: T -> bool): (n: nat)
    ensures n <= |xs|
  {
    if xs == [] then 0 else CountWhere(xs[..|xs| - 1], p) + (if p(xs[|xs| - 1]) then 1 else 0)
  }

  /** The elements of `xs` that satisfy `p`, in order. */
  function Filter<T>(xs: seq<T>, p: T -> bool): (r: seq<T>)
    ensures |r| == CountWhere(xs, p)
    ensures forall i :: 0 <= i < |r| ==> r[i] in xs && p(r[i])
    ensures forall x :: x in xs && p(x) ==> x in r
  {
    if xs == [] then [] else
      var r := Filter(xs[..|xs| - 1], p);
      assert forall x :: x in xs[..|xs| - 1] ==> x in xs;
      assert forall x :: x in xs ==> x in xs[..|xs| - 1] || x == xs[|xs| - 1];
      if p(xs[|xs| - 1]) then r + [xs[|xs| - 1]] else r
  }

  /** The FASTA text a writer emits for one record: `>name\nseq\n`. */
  function FastaEntry(name: string, residues: string): (t: string)
    ensures |t| == |name| + |residues| + 3
    ensures t[0] == '>' && t[|name| + 1] == '\n' && t[|t| - 1] == '\n'
    ensures t[1..|name| + 1] == name && t[|name| + 2..|t| - 1] == residues
  {
    ">" + name + "\n" + residues + "\n"
  }

  /** The FASTA text for a list of (name, residues) pairs, one entry after another. */
  function FastaText(entries: seq<(string, string)>): string
  {
    if entries == [] then []
    else FastaText(entries[..|entries| - 1]) + FastaEntry(entries[|entries| - 1].0, entries[|entries| - 1].1)
  }

  /** The loop both FASTA writers run: one `>name\nseq\n` entry per pair, in order. */
  method WriteFasta(u: seq<(string, string)>) returns (text: string)
    ensures text == FastaText(u)
  {
    text := [];
    var i := 0;
    while i < |u|
      invariant i <= |u|
      invariant text == FastaText(u[..i])
    {
      assert u[..i + 1][..i] == u[..i];
      text := text + FastaEntry(u[i].0, u[i].1);
      i := i + 1;
    }
    assert u[..i] == u;
  }

  /** The blocks of `bs` one after another, as `pd.concat` or `sum(bs, [])` puts them. */
  function Flatten<T>(bs: seq<seq<T>>): seq<T>
  {
    if bs == [] then [] else bs[0] + Flatten(bs[1..])
  }

  /** Appending `x` to block `g` adds exactly one `x` to the flattened whole. */
  lemma {:induction false} FlattenGrow<T>(bs: seq<seq<T>>, g: nat, x: T)
    requires g < |bs|
    ensures multiset(Flatten(bs[g := bs[g] + [x]])) == multiset(Flatten(bs)) + multiset{x}
  {
    var cs := bs[g := bs[g] + [x]];
    if g == 0 {
      assert cs[1..] == bs[1..];
    } else {
      assert cs[1..] == bs[1..][g - 1 := bs[g] + [x]];
      FlattenGrow(bs[1..], g - 1, x);
    }
  }

  lemma {:induction false} FlattenEmpty<T>(bs: seq<seq<T>>)
    requires forall i :: 0 <= i < |bs| ==> bs[i] == []
    ensures Flatten(bs) == []
  {
    if bs != [] {
      FlattenEmpty(bs[1..]);
    }
  }

  /** A part of `u` is disjoint from whatever misses `u`. */
  lemma DisjointWithin<T>(a: set<T>, b: set<T>, u: set<T>)
    requires a <= u && b * u == {}
    ensures a !! b
  {
    forall x | x in a ensures x !in b {
      assert x in u && x !in b * u;
    }
  }
}
