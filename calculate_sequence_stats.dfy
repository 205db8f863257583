/**
 * bin/calculate_sequence_stats.py. The names of the original and the decoy
 * sequences are collected from two FASTA files. Every record of every
 * alignment file of the chosen type is then counted against those names:
 * under its original name if it has one, else under its decoy name, else
 * as an unknown protein. The counts are written sorted and summarised.
 */
module CalculateSequenceStats {
  import opened Common

  /** One alignment file as the folder listing and the parser hand it over: its name and its record ids. */
  datatype AlignmentFile = AlignmentFile(name: string, ids: seq<string>)

  /** The totals `write_summary` reports. */
  datatype Summary = Summary(
    totalOriginalMatches: nat,
    totalDecoyMatches: nat,
    totalUnknowns: nat,
    uniqueOriginalFound: nat,
    originalKeys: nat,
    uniqueDecoyFound: nat,
    decoyKeys: nat)

  /** `id.split("/", 1)[0]`: the sequence name without its alignment range. */
  function CleanName(id: string): (r: string)
    ensures '/' !in r && StartsWith(id, r)
    ensures '/' !in id ==> r == id
  {
    Before(id, '/')
  }

  /** The cleaned names of a list of record ids, in order. */
  function CleanNames(ids: seq<string>): (r: seq<string>)
    ensures |r| == |ids| && forall k :: 0 <= k < |ids| ==> r[k] == CleanName(ids[k])
  {
    seq(|ids|, k requires 0 <= k < |ids| => CleanName(ids[k]))
  }

  /** `load_fasta_names`: the set of cleaned record ids. */
  method LoadFastaNames(ids: seq<string>) returns (names: set<string>)
    ensures forall x :: x in names <==> exists k :: 0 <= k < |ids| && CleanName(ids[k]) == x
    ensures forall x :: x in names ==> '/' !in x
  {
    names := {};
    var i := 0;
    while i < |ids|
      invariant i <= |ids|
      invariant forall x :: x in names <==> exists k :: 0 <= k < i && CleanName(ids[k]) == x
    {
      names := names + {CleanName(ids[i])};
      i := i + 1;
    }
  }

  /** Only files named `*.{fileType}` are read, and only for the three alignment types the script knows. */
  predicate Examined(fileName: string, fileType: string)
  {
    EndsWith(fileName, "." + fileType) && (fileType == "sto" || fileType == "aln" || fileType == "fas.gz")
  }

  /** The cleaned names of every examined record, file after file. */
  function Stream(files: seq<AlignmentFile>, fileType: string): seq<string>
  {
    if files == [] then []
    else
      var last := files[|files| - 1];
      Stream(files[..|files| - 1], fileType) + (if Examined(last.name, fileType) then CleanNames(last.ids) else [])
  }

  /** How often `x` occurs in `xs`. */
  function Occ(xs: seq<string>, x: string): nat
  {
    if xs == [] then 0 else Occ(xs[..|xs| - 1], x) + (if xs[|xs| - 1] == x then 1 else 0)
  }

  lemma OccSnoc(xs: seq<string>, y: string, x: string)
    ensures Occ(xs + [y], x) == Occ(xs, x) + (if y == x then 1 else 0)
  {
    assert (xs + [y])[..|xs|] == xs;
  }

  /** The names of `stream` that are neither original nor decoy. */
  ghost function Unknowns(stream: seq<string>, originalSet: set<string>, decoySet: set<string>): set<string>
  {
    set k | 0 <= k < |stream| && stream[k] !in originalSet && stream[k] !in decoySet :: stream[k]
  }

  /**
   * The counters after `stream`: each key set stays as it was set up, an
   * original name counts its occurrences, a decoy name counts them unless it
   * is also original, and the unknowns are exactly the other names.
   */
  ghost predicate Counted(
    originalCount: map<string, nat>, decoyCount: map<string, nat>, unknown: set<string>,
    originalSet: set<string>, decoySet: set<string>, stream: seq<string>)
  {
    && originalCount.Keys == originalSet
    && decoyCount.Keys == decoySet
    && (forall x :: x in originalSet ==> originalCount[x] == Occ(stream, x))
    && (forall x :: x in decoySet ==> decoyCount[x] == if x in originalSet then 0 else Occ(stream, x))
    && unknown == Unknowns(stream, originalSet, decoySet)
  }

  /** The counters as `parse_alignment_folder` sets them up: every key at zero. */
  function Zeroed(keys: set<string>): (m: map<string, nat>)
    ensures m.Keys == keys && forall x :: x in keys ==> m[x] == 0
  {
    map x | x in keys :: 0
  }

  /** The records of one examined file, each counted under one counter or added to the unknowns. */
  method CountFile(
    names: seq<string>, originalCount: map<string, nat>, decoyCount: map<string, nat>, unknown: set<string>,
    ghost originalSet: set<string>, ghost decoySet: set<string>, ghost stream: seq<string>)
    returns (originalCount': map<string, nat>, decoyCount': map<string, nat>, unknown': set<string>)
    requires Counted(originalCount, decoyCount, unknown, originalSet, decoySet, stream)
    ensures Counted(originalCount', decoyCount', unknown', originalSet, decoySet, stream + names)
  {
    originalCount', decoyCount', unknown' := originalCount, decoyCount, unknown;
    assert stream + names[..0] == stream;
    var j := 0;
    while j < |names|
      invariant j <= |names|
      invariant Counted(originalCount', decoyCount', unknown', originalSet, decoySet, stream + names[..j])
    {
      var x := names[j];
      assert stream + names[..j + 1] == (stream + names[..j]) + [x];
      CountedStep(originalCount', decoyCount', unknown', originalSet, decoySet, stream + names[..j], x);
      if x in originalCount' {
        originalCount' := originalCount'[x := originalCount'[x] + 1];
      } else if x in decoyCount' {
        decoyCount' := decoyCount'[x := decoyCount'[x] + 1];
      } else {
        unknown' := unknown' + {x};
      }
      j := j + 1;
    }
    assert names[..j] == names;
  }

  /** One more name: it is counted as original, else as decoy, else it joins the unknowns. */
  lemma CountedStep(
    originalCount: map<string, nat>, decoyCount: map<string, nat>, unknown: set<string>,
    originalSet: set<string>, decoySet: set<string>, stream: seq<string>, x: string)
    requires Counted(originalCount, decoyCount, unknown, originalSet, decoySet, stream)
    ensures x in originalCount ==>
      Counted(originalCount[x := originalCount[x] + 1], decoyCount, unknown, originalSet, decoySet, stream + [x])
    ensures x !in originalCount && x in decoyCount ==>
      Counted(originalCount, decoyCount[x := decoyCount[x] + 1], unknown, originalSet, decoySet, stream + [x])
    ensures x !in originalCount && x !in decoyCount ==>
      Counted(originalCount, decoyCount, unknown + {x}, originalSet, decoySet, stream + [x])
  {
    var after := stream + [x];
    forall y ensures Occ(after, y) == Occ(stream, y) + (if x == y then 1 else 0) {
      OccSnoc(stream, x, y);
    }
    assert forall k :: 0 <= k < |stream| ==> after[k] == stream[k];
    assert after[|stream|] == x;
    if x !in originalCount && x !in decoyCount {
      assert Unknowns(after, originalSet, decoySet) == unknown + {x};
    } else {
      assert Unknowns(after, originalSet, decoySet) == unknown;
    }
  }

  /** `parse_alignment_folder` over the folder listing `files`. */
  method ParseAlignmentFolder(files: seq<AlignmentFile>, originalSet: set<string>, decoySet: set<string>, fileType: string)
    returns (originalCount: map<string, nat>, decoyCount: map<string, nat>, unknown: set<string>)
    ensures Counted(originalCount, decoyCount, unknown, originalSet, decoySet, Stream(files, fileType))
  {
    originalCount, decoyCount, unknown := Zeroed(originalSet), Zeroed(decoySet), {};
    var i := 0;
    while i < |files|
      invariant i <= |files|
      invariant Counted(originalCount, decoyCount, unknown, originalSet, decoySet, Stream(files[..i], fileType))
    {
      assert files[..i + 1][..i] == files[..i];
      var file := files[i];
      assert Stream(files[..i + 1], fileType) ==
        Stream(files[..i], fileType) + (if Examined(file.name, fileType) then CleanNames(file.ids) else []);
      assert Stream(files[..i], fileType) + [] == Stream(files[..i], fileType);
      if EndsWith(file.name, "." + fileType) {
        if fileType == "sto" || fileType == "aln" || fileType == "fas.gz" {
          originalCount, decoyCount, unknown := CountFile(
            CleanNames(file.ids), originalCount, decoyCount, unknown, originalSet, decoySet, Stream(files[..i], fileType));
        }
      }
      i := i + 1;
    }
    assert files[..i] == files;
  }

  /**
   * Every examined record is accounted for exactly once: its name is
   * counted as original, or else as decoy, or else it is an unknown, and an
   * unknown name is neither original nor decoy.
   */
  lemma ClassifiedOnce(
    originalCount: map<string, nat>, decoyCount: map<string, nat>, unknown: set<string>,
    originalSet: set<string>, decoySet: set<string>, stream: seq<string>)
    requires Counted(originalCount, decoyCount, unknown, originalSet, decoySet, stream)
    ensures unknown !! originalSet && unknown !! decoySet
    ensures forall k :: 0 <= k < |stream| ==>
      var x := stream[k];
      if x in originalSet then originalCount[x] >= 1
      else if x in decoySet then decoyCount[x] >= 1
      else x in unknown
    ensures forall x :: x in originalSet && x in decoySet ==> decoyCount[x] == 0
  {
    forall k | 0 <= k < |stream| ensures Occ(stream, stream[k]) >= 1 {
      OccPositive(stream, k);
    }
  }

  lemma {:induction false} OccPositive(xs: seq<string>, k: nat)
    requires k < |xs|
    ensures Occ(xs, xs[k]) >= 1
  {
    var n := |xs| - 1;
    if k < n {
      OccPositive(xs[..n], k);
      assert xs[..n][k] == xs[k];
    }
  }

  /** The decimal digits of `n`, as `str(n)` writes them. */
  function DecimalString(n: nat): (r: string)
    ensures IsDigits(r)
  {
    if n < 10 then [('0' as int + n) as char]
    else DecimalString(n / 10) + [('0' as int + n % 10) as char]
  }

  /** Reading the digits back gives the number. */
  lemma {:induction false} DecimalStringRoundTrip(n: nat)
    ensures DigitsValue(DecimalString(n)) == n
  {
    var r := DecimalString(n);
    if n >= 10 {
      DecimalStringRoundTrip(n / 10);
      assert r[..|r| - 1] == DecimalString(n / 10);
    }
  }

  /** Non-increasing counts. */
  predicate ByCountDesc(items: seq<(string, nat)>)
  {
    forall j, k :: 0 <= j < k < |items| ==> items[j].1 >= items[k].1
  }

  /** `x` placed before the first entry whose count is not larger: ties keep their input order. */
  function InsertByCount(x: (string, nat), items: seq<(string, nat)>): seq<(string, nat)>
  {
    if items == [] || items[0].1 <= x.1 then [x] + items
    else [items[0]] + InsertByCount(x, items[1..])
  }

  /** `sorted(items, key=lambda x: -x[1])`, as an insertion sort. */
  function SortByCountDesc(items: seq<(string, nat)>): seq<(string, nat)>
  {
    if items == [] then [] else InsertByCount(items[0], SortByCountDesc(items[1..]))
  }

  /** Inserting adds exactly `x`, and the result starts with `x` or with the old first entry. */
  lemma {:induction false} InsertByCountAdds(x: (string, nat), items: seq<(string, nat)>)
    ensures var r := InsertByCount(x, items);
      multiset(r) == multiset(items) + multiset{x} && (r[0] == x || (items != [] && r[0] == items[0]))
  {
    if items != [] && items[0].1 > x.1 {
      InsertByCountAdds(x, items[1..]);
      assert items == [items[0]] + items[1..];
    }
  }

  /** Inserting into a sorted list keeps it sorted. */
  lemma {:induction false} InsertByCountSorted(x: (string, nat), items: seq<(string, nat)>)
    requires ByCountDesc(items)
    ensures ByCountDesc(InsertByCount(x, items))
  {
    if items != [] && items[0].1 > x.1 {
      var tail := items[1..];
      assert ByCountDesc(tail) by {
        forall j, k | 0 <= j < k < |tail| ensures tail[j].1 >= tail[k].1 {
          assert tail[j] == items[j + 1] && tail[k] == items[k + 1];
        }
      }
      InsertByCountSorted(x, tail);
      InsertByCountAdds(x, tail);
      var rest := InsertByCount(x, tail);
      assert rest[0].1 <= items[0].1 by {
        if tail != [] {
          assert tail[0] == items[1];
        }
      }
      var r := [items[0]] + rest;
      assert ByCountDesc(r) by {
        forall j, k | 0 <= j < k < |r| ensures r[j].1 >= r[k].1 {
          if j == 0 {
            assert r[k] == rest[k - 1];
            assert rest[k - 1].1 <= rest[0].1 || k == 1;
          } else {
            assert r[j] == rest[j - 1] && r[k] == rest[k - 1];
          }
        }
      }
    }
  }

  /** The sorted list has non-increasing counts and the same entries as the input. */
  lemma {:induction false} SortByCountDescMeans(items: seq<(string, nat)>)
    ensures ByCountDesc(SortByCountDesc(items))
    ensures multiset(SortByCountDesc(items)) == multiset(items)
  {
    if items != [] {
      SortByCountDescMeans(items[1..]);
      InsertByCountSorted(items[0], SortByCountDesc(items[1..]));
      InsertByCountAdds(items[0], SortByCountDesc(items[1..]));
      assert items == [items[0]] + items[1..];
    }
  }

  /** One line of a counts file: `name\tcount\n`. */
  function CountLine(x: (string, nat)): string
  {
    x.0 + "\t" + DecimalString(x.1) + "\n"
  }

  function CountLines(items: seq<(string, nat)>): string
  {
    if items == [] then [] else CountLines(items[..|items| - 1]) + CountLine(items[|items| - 1])
  }

  /**
   * `write_counts_file`: a header, then one line per entry in the order of
   * `SortByCountDesc`. `items` are the counter's entries in the order the
   * dictionary yields them.
   */
  method WriteCountsFile(items: seq<(string, nat)>, heading: string) returns (text: string)
    ensures text == heading + " Proteins (sorted by count):\n" + CountLines(SortByCountDesc(items))
  {
    var sorted := SortByCountDesc(items);
    text := heading + " Proteins (sorted by count):\n";
    var i := 0;
    while i < |sorted|
      invariant i <= |sorted|
      invariant text == heading + " Proteins (sorted by count):\n" + CountLines(sorted[..i])
    {
      assert sorted[..i + 1][..i] == sorted[..i];
      text := text + CountLine(sorted[i]);
      i := i + 1;
    }
    assert sorted[..i] == sorted;
  }

  /** `sum(counts)` over the entries. */
  function SumCounts(items: seq<(string, nat)>): nat
  {
    if items == [] then 0 else SumCounts(items[..|items| - 1]) + items[|items| - 1].1
  }

  /** `sum(1 for count in counts if count > 0)`. */
  function FoundCount(items: seq<(string, nat)>): nat
  {
    if items == [] then 0 else FoundCount(items[..|items| - 1]) + (if items[|items| - 1].1 > 0 then 1 else 0)
  }

  /**
   * The proteins found are at most the keys and at most the matches, and
   * there are no matches exactly when no protein was found.
   */
  lemma {:induction false} FoundBounds(items: seq<(string, nat)>)
    ensures FoundCount(items) <= |items|
    ensures FoundCount(items) <= SumCounts(items)
    ensures SumCounts(items) == 0 <==> FoundCount(items) == 0
  {
    if items != [] {
      FoundBounds(items[..|items| - 1]);
    }
  }

  /** `write_summary`, over the entries of both counters, each a dictionary, and the unknown set. */
  function WriteSummary(originalItems: seq<(string, nat)>, decoyItems: seq<(string, nat)>, unknown: set<string>): (s: Summary)
    requires forall j, k :: 0 <= j < k < |originalItems| ==> originalItems[j].0 != originalItems[k].0
    requires forall j, k :: 0 <= j < k < |decoyItems| ==> decoyItems[j].0 != decoyItems[k].0
    ensures s.uniqueOriginalFound <= s.originalKeys && s.uniqueOriginalFound <= s.totalOriginalMatches
    ensures s.uniqueDecoyFound <= s.decoyKeys && s.uniqueDecoyFound <= s.totalDecoyMatches
    ensures s.totalUnknowns == |unknown|
  {
    FoundBounds(originalItems);
    FoundBounds(decoyItems);
    Summary(SumCounts(originalItems), SumCounts(decoyItems), |unknown|,
      FoundCount(originalItems), |originalItems|, FoundCount(decoyItems), |decoyItems|)
  }
}
