# proteinfamilies use-case scripts in Dafny

This project models the helper scripts of the proteinfamilies use-case
workflow. The workflow samples InterPro families across member databases and
builds decoy sets from UniProt. It then checks how the families rebuilt from
the sampled sequences match the originals. Each script under `bin/` is one
Dafny module with the same name in CamelCase. `Common` holds the string
helpers the scripts share: `strip`, `split`, `str.split()`, `isdigit`/`int`,
`lower` and FASTA output.

The modules follow the scripts' own shapes. The `Node` objects of
`sample_interpro.py` are a class `Forest` whose methods update its node arena
in place. Each loop that builds a set, a dictionary or a list is a method
with a `while` or `for` loop. Most of these methods are proved equal to a
specification function, and lemmas prove what the scripts promise about that
function. These are specified by properties instead:
- `InvestigateMatchedOriginals.SizeGroups` states the keys of `size_to_members` and the length of each list, not the members each list holds.
- `InvestigateMatchedOriginals.LoadClusterFile` states which members each `cluster_sizes` list holds, not their order.
- `InterproSampler.PlayRound` and `InterproSampler.SampleEntries` state what the picks of `samples_per_db` satisfy, for every `draw`, not which rows are picked.

Randomness (`random.sample`, `DataFrame.sample`) is a parameter
`draw: nat -> nat`, so the proofs cover every choice the random source can
make. File reading becomes the parsed input: lines, records, rows or a folder
listing. File writing becomes the returned text or rows.

- **`sample_interpro.py`** is split in three modules:
  - `InterproTree`: nodes, `add_child`, `get_descendants`, siblings and parent.
  - `InterproBuild`: `build_tree_from_text`.
  - `InterproSampler`: the membership filter and `sample_entries`.
- **`remove_duplicate_branches.py`**: clade splitting, the depth passes and the output text.
- **`combine_db_fasta.py`**: deduplication of records by name, with sequence duplicates only counted.
- **`combine_decoy_fasta.py`**: the union of two FASTA files in which the first file wins.
- **`identify_uniprot_decoys.py`**: the pool of non-hit records and the sample drawn from it.
- **`calculate_sequence_stats.py`**: original, decoy and unknown counters over an alignment folder, the sorted counts file and the summary.
- **`investigate_matched_originals.py`**: the clustering file, per-family cluster grouping, size groups, use-case overlaps and the match tag.
- **`calculate_db_sequence_coverage.py`**: family ids per database, hit proteins, the proteins each database's alignments cover, and the match table.
- **`filter_valid_candidate_families.py`**: the metadata lookups and the row filter that updates `protein_count`.

The model follows the code in these places, where a reader might expect otherwise:

- **Parent exclusion.** A picked identifier that is absent from the tree excludes nothing, not even itself. It can therefore be picked again in a later round.
- **Unnamed parent.** A parent whose identifier is the empty string adds nothing to the exclusions, because `{pid} if pid else set()` treats `""` as false.
- **Missing parent.** A tree line whose parent depth has no earlier line raises `IndexError` in `stack[depth - 1]`. The model returns `MissingParent` for the first such line.
- **Empty table.** `sample_entries` on a table with no rows fails in `pd.concat([])`. The model returns `NoObjectsToConcatenate`.
- **Clustering file.** `load_cluster_file` raises at the first malformed line, and the mapping it was building is lost. The model checks every line first and then assigns. Both orders give the same answer, both on success and on failure.

## Model

| member | source | states |
|---|---|---|
| InterproTree.Forest.AddChild | bin/sample_interpro.py:18-21 | the child's parent is set to the parent node and its depth to the parent's depth plus one; the child is appended to the parent's children and nothing else changes; the arena stays well formed |
| InterproTree.Forest.GetDescendants | bin/sample_interpro.py:23-30 | the worklist loop returns exactly the identifiers of the nodes below the node, at any depth |
| InterproTree.ChildrenReachDesc | bin/sample_interpro.py:23-30 | expanding a node's children transitively reaches exactly its proper descendants |
| InterproTree.AncestorViaChild | bin/sample_interpro.py:23-30 | a proper descendant is a child or lies below a child |
| InterproTree.Siblings | bin/sample_interpro.py:32-35 | empty for a root; otherwise the identifiers of the other nodes with the same parent |
| InterproTree.DirectParent | bin/sample_interpro.py:37-38 | None exactly for a depth-0 node; otherwise the identifier of an earlier ancestor one level up |
| InterproBuild.LeadingDashes | bin/sample_interpro.py:46 | the length of the run of `-` that starts the line |
| InterproBuild.SecondField | bin/sample_interpro.py:52 | the second `::` field, or "" when there is none |
| InterproBuild.ParseLineMeans | bin/sample_interpro.py:45-52 | a line is skipped exactly when nothing is left after its dashes and whitespace are removed; otherwise the depth is half the dash count and the id and label are the first and second `::` fields |
| InterproBuild.LastAtDepthIsLatest | bin/sample_interpro.py:59-64 | the rail slot for a depth is the latest earlier entry at that depth, and is missing only when there is none |
| InterproBuild.LastWithIdIsLatest | bin/sample_interpro.py:54 | the table entry for an identifier is its latest node |
| InterproBuild.RailStep | bin/sample_interpro.py:61-64 | appending at a new depth or overwriting an existing slot keeps every slot equal to the latest entry at its depth |
| InterproBuild.BuiltTable | bin/sample_interpro.py:54 | every table key leads to a node carrying that identifier, and every node's identifier is a key |
| InterproBuild.Place | bin/sample_interpro.py:49-64 | one line's node is placed and recorded; it fails exactly when the entry has no parent slot |
| InterproBuild.TextLines | bin/sample_interpro.py:44 | the lines of the stripped text: the blank lines before the first non-blank line are dropped, that line loses its leading whitespace, and the lines after it are unchanged; nothing is left exactly when every line is blank |
| InterproBuild.BuildTreeFromText | bin/sample_interpro.py:41-65 | over the lines of the stripped text: fails exactly at the first entry whose parent slot is missing; otherwise one node per non-blank line carrying its id, label and depth; each parent is the most recent earlier entry one level up; the root is the last depth-0 entry; the table maps every id to its last node |
| InterproSampler.FilterByMinimumMembership | bin/sample_interpro.py:68-69 | keeps exactly the rows with `protein_count >= min_membership`, with every such row's multiplicity |
| InterproSampler.GroupKeys | bin/sample_interpro.py:84-85 | the `db` values of the table, once each, in ascending string order |
| InterproSampler.BelowTotal | bin/sample_interpro.py:84 | the key order is total, so the group order is determined |
| InterproSampler.ParentName | bin/sample_interpro.py:103 | empty exactly for a root or an unnamed parent |
| InterproSampler.ExcludedAreNodeIds | bin/sample_interpro.py:99-106 | only identifiers of the tree are ever excluded |
| InterproSampler.NeverExcludedPairs | bin/sample_interpro.py:90-106 | no pick lies in what an earlier pick excluded |
| InterproSampler.PickFrom | bin/sample_interpro.py:90-106 | a group is skipped exactly when all its rows are excluded; otherwise the pick is an available row of the group, and its exclusion is added |
| InterproSampler.PlayRound | bin/sample_interpro.py:89-106 | each group gains at most one row of its own; exclusions only grow; picks never repeat an excluded id |
| InterproSampler.SampleEntries | bin/sample_interpro.py:80-116 | fails exactly when there are no rows; otherwise the per-group blocks in key order, each holding rows of its group and at most one per round; a block that falls short belongs to a group whose every row was excluded |
| RemoveDuplicateBranches.CountLeadingDashes | bin/remove_duplicate_branches.py:6-9 | the number of `--` pairs the line starts with, maximal |
| RemoveDuplicateBranches.IprMatchesApart | bin/remove_duplicate_branches.py:13-16 | two pattern matches never overlap, so `findall` reports every match position |
| RemoveDuplicateBranches.CladeIprsMeans | bin/remove_duplicate_branches.py:11-18 | a clade's codes are exactly those found in its lines, each `IPR` plus six digits |
| RemoveDuplicateBranches.ExtractIprs | bin/remove_duplicate_branches.py:11-18 | the loop collects exactly the clade's codes |
| RemoveDuplicateBranches.TrimNewlines | bin/remove_duplicate_branches.py:29 | a prefix of the line that drops exactly the trailing newlines |
| RemoveDuplicateBranches.KeepLinesMeans | bin/remove_duplicate_branches.py:28-29 | the kept lines are exactly the non-blank input lines, in input order, each without its trailing newlines |
| RemoveDuplicateBranches.SplitClades | bin/remove_duplicate_branches.py:32-42 | non-empty clades that concatenate back to the lines; only a clade's first line may be undashed, and every clade after the first starts undashed |
| RemoveDuplicateBranches.Visit | bin/remove_duplicate_branches.py:49-58 | a clade sharing a seen code is skipped; otherwise it is written exactly when it reaches the depth, and its codes become seen |
| RemoveDuplicateBranches.Pass | bin/remove_duplicate_branches.py:48-58 | every clade of the pass is settled, and the record only grows at its end |
| RemoveDuplicateBranches.SelectClades | bin/remove_duplicate_branches.py:44-58 | passes run from the deepest down; written clades share no code; every visit of every pass is settled |
| RemoveDuplicateBranches.CodelessAlwaysWritten | bin/remove_duplicate_branches.py:52-58 | a clade without codes is written in every pass its depth reaches |
| RemoveDuplicateBranches.WrittenOnce | bin/remove_duplicate_branches.py:47-58 | a clade with codes is written at most once, and only clades reaching depth 1 are written |
| RemoveDuplicateBranches.RemoveBranches | bin/remove_duplicate_branches.py:20-63 | `main` end to end: the clades cut the non-blank, newline-trimmed input lines; the passes select the written clades as `SelectClades` states; the text is every written line in order, each followed by a newline |
| RemoveDuplicateBranches.OutputIsLines | bin/remove_duplicate_branches.py:61-63 | the output is every written line in order, each followed by a newline |
| CombineDbFasta.CombineRecords | bin/combine_db_fasta.py:35-54 | the total counts every record; the first record per id is kept in input order; total = name duplicates + kept; the sequence-duplicate counter counts kept records that repeat an earlier kept sequence; both tables hold the first file, or the first id and file |
| CombineDbFasta.KeptAtMeans | bin/combine_db_fasta.py:40-45 | the kept positions increase, and they are exactly the first occurrence of each id |
| CombineDbFasta.KeptIdsDistinctAndComplete | bin/combine_db_fasta.py:40-54 | kept ids are pairwise distinct, and every input id is kept |
| CombineDbFasta.DupCountIdentity | bin/combine_db_fasta.py:47-52 | sequence duplicates + distinct kept sequences = kept records |
| CombineDecoyFasta.ProcessFasta | bin/combine_decoy_fasta.py:21-33 | the loop is the record-by-record update: a known name is logged, a known sequence is logged, and anything else is added |
| CombineDecoyFasta.AdmitAllKeepsGood | bin/combine_decoy_fasta.py:21-33 | names and sequences stay pairwise distinct, and the logs only name kept entries |
| CombineDecoyFasta.AdmitAllAccounts | bin/combine_decoy_fasta.py:21-33 | every record is kept or logged by name or by sequence |
| CombineDecoyFasta.FamiliesWin | bin/combine_decoy_fasta.py:36-37 | the families' table is a prefix of the result, and no decoy enters under a families name or sequence |
| CombineDecoyFasta.CombineFastas | bin/combine_decoy_fasta.py:14-42 | families then decoys; the invariant holds, every record is accounted for, and the text is the table in insertion order |
| IdentifyUniprotDecoys.FirstColumn | bin/identify_uniprot_decoys.py:21-25 | nothing for a blank line or a line with fewer than two fields; otherwise a non-empty first field without whitespace |
| IdentifyUniprotDecoys.HitIds | bin/identify_uniprot_decoys.py:19-25 | an id is a hit exactly when some line's first column is that id |
| IdentifyUniprotDecoys.GetNonHitSequences | bin/identify_uniprot_decoys.py:17-38 | the pool of the records against the first columns of the hits file: no candidate is a hit, no two share a name or a sequence, each is an input record, and every other record is a hit or clashes with a candidate |
| IdentifyUniprotDecoys.NonHitPool | bin/identify_uniprot_decoys.py:28-37 | the loop with its seen-sets builds the candidate pool |
| IdentifyUniprotDecoys.PoolMeans | bin/identify_uniprot_decoys.py:28-37 | no candidate is a hit; candidate names and sequences are pairwise distinct; every candidate is an input record; every non-hit record is in the pool or clashes with a candidate |
| IdentifyUniprotDecoys.Sample | bin/identify_uniprot_decoys.py:43 | fails exactly for a negative size; otherwise `min(size, len(pool))` entries drawn without replacement from the pool |
| IdentifyUniprotDecoys.SampleDecoys | bin/identify_uniprot_decoys.py:42-46 | a sample of a repeat-free pool has no repeats, and the text is its FASTA |
| IdentifyUniprotDecoys.IdentifyDecoys | bin/identify_uniprot_decoys.py:49-56 | every sampled decoy is a non-hit input record, and no two share a name or a sequence |
| CalculateSequenceStats.CleanName | bin/calculate_sequence_stats.py:14 | a prefix of the id without `/`, and the whole id when it has none |
| CalculateSequenceStats.LoadFastaNames | bin/calculate_sequence_stats.py:10-15 | exactly the cleaned ids |
| CalculateSequenceStats.CountFile | bin/calculate_sequence_stats.py:36-43 | one file's records extend the counters as the classification says |
| CalculateSequenceStats.ParseAlignmentFolder | bin/calculate_sequence_stats.py:17-63 | the keys are set up from the two sets; an original name counts its occurrences; a decoy name counts them unless it is also original; unknowns are exactly the other names; only files of the chosen type are read |
| CalculateSequenceStats.ClassifiedOnce | bin/calculate_sequence_stats.py:38-43 | every record is counted once, as original, else decoy, else unknown; a name in both sets never counts as decoy |
| CalculateSequenceStats.DecimalStringRoundTrip | bin/calculate_sequence_stats.py:70 | the count written reads back as the same number |
| CalculateSequenceStats.SortByCountDescMeans | bin/calculate_sequence_stats.py:66 | the sorted entries have non-increasing counts and are a permutation of the input |
| CalculateSequenceStats.WriteCountsFile | bin/calculate_sequence_stats.py:65-70 | a header, then one `name\tcount` line per sorted entry |
| CalculateSequenceStats.FoundBounds | bin/calculate_sequence_stats.py:73-76 | proteins found ≤ keys and ≤ matches; no matches exactly when none found |
| CalculateSequenceStats.WriteSummary | bin/calculate_sequence_stats.py:72-85 | over counters with distinct names, as dictionaries have: the found counts are within the key counts and the match totals; unknowns are counted |
| InvestigateMatchedOriginals.ClusterFields | bin/investigate_matched_originals.py:27 | the two whitespace-free fields of a two-field line |
| InvestigateMatchedOriginals.InvertClusters | bin/investigate_matched_originals.py:25-28 | fails exactly when some line lacks two fields, reporting the first such line; otherwise each member maps to the representative of its last line, and the key order lists each member once, ordered by the line that first names it |
| InvestigateMatchedOriginals.InClusterMeans | bin/investigate_matched_originals.py:76-79 | an id is listed under a cluster exactly when the clustering puts it there |
| InvestigateMatchedOriginals.GroupByCluster | bin/investigate_matched_originals.py:75-79 | one non-empty list per cluster hit, holding exactly the ids in that cluster in order; the key order lists each cluster once, ordered by the first id that falls in it |
| InvestigateMatchedOriginals.LoadClusterFile | bin/investigate_matched_originals.py:21-33 | the error case as above; each representative lists exactly its members once each; the keys are exactly the members' representatives, so no list is empty |
| InvestigateMatchedOriginals.SizeGroups | bin/investigate_matched_originals.py:88-91 | a size is a key exactly when some cluster has it, and lists size × (number of clusters of that size) members, so `len // size` counts them |
| InvestigateMatchedOriginals.Overlaps | bin/investigate_matched_originals.py:101-112 | the non-empty overlaps in file order, and the unmatched names are those no file shares |
| InvestigateMatchedOriginals.TopMatch | bin/investigate_matched_originals.py:125 | the largest overlap, attained by some entry |
| InvestigateMatchedOriginals.CommonsBounds | bin/investigate_matched_originals.py:101-105 | each overlap is non-empty and no larger than the family; none exactly when no file shares a name |
| InvestigateMatchedOriginals.MatchTagVanished | bin/investigate_matched_originals.py:120-123 | vanished exactly when no file shares a name, that is, exactly when every name is unmatched |
| InvestigateMatchedOriginals.MatchTagMeans | bin/investigate_matched_originals.py:124-131 | matched exactly when some file shares at least half the names; split when several share but none half; partial when only one shares, under half |
| InvestigateMatchedOriginals.AnalyzeFamily | bin/investigate_matched_originals.py:61-133 | for use-case files with distinct names: cluster count = clusters hit; a size is a key exactly when some cluster of the family has that size, and it lists size × (number of the family's clusters of that size) ids; the overlaps, unmatched names and tag of the family's names as above |
| CalculateDbSequenceCoverage.NormKey | bin/calculate_db_sequence_coverage.py:14 | the stripped key up to its first `/` |
| CalculateDbSequenceCoverage.LoadMetadata | bin/calculate_db_sequence_coverage.py:8-17 | exactly the four databases as keys, each with the normalised keys of its rows; other databases are ignored |
| CalculateDbSequenceCoverage.HitNameMeans | bin/calculate_db_sequence_coverage.py:23-26 | a line names `n` exactly when it is not blank, does not start with `Original`, and its stripped text is `n`, a tab, and a positive all-digit count, with no other tab |
| CalculateDbSequenceCoverage.ZeroCountNamesNothing | bin/calculate_db_sequence_coverage.py:25 | a count of zeros names nothing |
| CalculateDbSequenceCoverage.LoadOriginalHits | bin/calculate_db_sequence_coverage.py:19-27 | exactly the names the lines give |
| CalculateDbSequenceCoverage.ExtractProteinIds | bin/calculate_db_sequence_coverage.py:29-37 | the record ids cut at their first `/`, none containing `/` |
| CalculateDbSequenceCoverage.FirstMatch | bin/calculate_db_sequence_coverage.py:46-51 | the first file whose name starts with the family id, or none when no file does |
| CalculateDbSequenceCoverage.FamilyProteins | bin/calculate_db_sequence_coverage.py:46-51 | the proteins of the first matching file only |
| CalculateDbSequenceCoverage.TotalUnique | bin/calculate_db_sequence_coverage.py:44-51 | the union, over the families, of the proteins of each family's first matching file, in any family order |
| CalculateDbSequenceCoverage.StatOf | bin/calculate_db_sequence_coverage.py:52-60 | no row exactly when nothing was gathered; otherwise matched = overlap with the hits, total = gathered |
| CalculateDbSequenceCoverage.MatchedWithinTotal | bin/calculate_db_sequence_coverage.py:56-58 | a row counts at least one protein, and no more matches than proteins |
| CalculateDbSequenceCoverage.ComputeMatchStats | bin/calculate_db_sequence_coverage.py:39-60 | the rows for the databases in key order, given what each gathered |
| CalculateDbSequenceCoverage.StatsRows | bin/calculate_db_sequence_coverage.py:42-60 | each row names a listed database, counts what it gathered, at least one, and no more matches than proteins |
| CalculateDbSequenceCoverage.StatsDistinct | bin/calculate_db_sequence_coverage.py:42-60 | no two rows name the same database |
| CalculateDbSequenceCoverage.StatsHasRow | bin/calculate_db_sequence_coverage.py:52-60 | a database has a row exactly when it gathered some protein |
| CalculateDbSequenceCoverage.MatchStatsTable | bin/calculate_db_sequence_coverage.py:70-87 | the table for the loaded metadata and hits: rows once each, exactly for the databases that gathered proteins, each within bounds |
| FilterValidCandidateFamilies.LookupKeys | bin/filter_valid_candidate_families.py:6-9 | the lookup has one key per id of the table |
| FilterValidCandidateFamilies.LookupLastWins | bin/filter_valid_candidate_families.py:6-9 | a repeated id maps to the value of its last row |
| FilterValidCandidateFamilies.LoadMetadata | bin/filter_valid_candidate_families.py:6-9 | the row loop builds the lookup |
| FilterValidCandidateFamilies.BuildMetadata | bin/filter_valid_candidate_families.py:13-18 | keys are exactly the four database names, each with its table's lookup |
| FilterValidCandidateFamilies.Updated | bin/filter_valid_candidate_families.py:28-30 | only `protein_count` changes, to the metadata's value |
| FilterValidCandidateFamilies.FilterRows | bin/filter_valid_candidate_families.py:24-30 | the row loop is the filter |
| FilterValidCandidateFamilies.FilteredAppend | bin/filter_valid_candidate_families.py:24-30 | the filter keeps input order |
| FilterValidCandidateFamilies.FilteredMeans | bin/filter_valid_candidate_families.py:24-30 | one output row per valid input row; each output row is valid and carries the metadata's count; every valid input row appears, updated |
| FilterValidCandidateFamilies.OnlyKnownDatabases | bin/filter_valid_candidate_families.py:13-18 | only rows of the four databases survive |
| FilterValidCandidateFamilies.FilterValidCandidates | bin/filter_valid_candidate_families.py:11-30 | every kept row names one of the four databases; a PFAM row carries its PFAM count; the rows are the filter of the table |

## Left out

- Reading and writing files is left out: CSV/TSV parsing, Biopython/pyfastx FASTA and Stockholm parsing, gzip, `os.listdir`, `rglob`, `os.walk`. The parsed lines, records, rows and folder listings are inputs, and the text or rows written are outputs.
- The order in which `os.listdir`, `rglob` and set iteration yield items is taken as the input order.
- Logging is left out: `print`, the log files of `combine_db_fasta.py`, `combine_decoy_fasta.py` and `investigate_matched_originals.py`, and `log_selection`.
- The random choices of `random.sample` and `DataFrame.sample` are the `draw` parameter. The model does not state that they are uniform.
- Floating point is left out: average lengths, the percentage column of the coverage table, and the `0.5 *` comparison, which is modelled exactly as `2 * top >= n`.
- `strip` and `split()` treat as whitespace the characters Python does below U+0100: 9-13, 28-32, 133 and 160. Whitespace above U+00FF, such as U+2028 or U+3000, is not whitespace here.
- `lower()` changes only the ASCII letters `A`-`Z`.
- Digits are the ASCII digits only. `isdigit` and `int` also accept other Unicode digits, and the two sets differ: `isdigit` accepts digits such as `²` that `int` rejects. So a line `"P\t²"` makes `load_original_hits` raise `ValueError`, while `HitName` gives no name. `\d` in the pattern `IPR\d{6}` of `remove_duplicate_branches.py` matches any Unicode decimal digit, while `IsIprCode` accepts only `IPR` followed by six ASCII digits.
- `splitlines` is not modelled: `build_tree_from_text` takes the text as its lines. Of `tree_text.strip()` only the leading part is applied (`TextLines`). The trailing strip only removes blank lines and whitespace after the last line's text, and the per-line `strip()` removes those as well.
- pandas missing values (NaN) are not modelled. Table columns other than the ones the code reads are carried unchanged or dropped.
- The `selected` set of `sample_entries` is never read and is left out. So is `cluster_distribution` in `analyze_fasta_file`.
- `load_interpro_csv`, `load_use_case_data`, the family-name `replace(".fasta", "")` and the output row of `main` in `investigate_matched_originals.py` are not modelled. The use-case sets are an input of `AnalyzeFamily`.
- A parser exception is caught in `calculate_sequence_stats.py` and `calculate_db_sequence_coverage.py`, leaving a partial result. It is not modelled: each file is taken as parsed in full.
- The `--max_depth`, `--num_per_db` and `--num_decoys` arguments are plain integers; argument parsing is left out.
- CalculateSequenceStats.SortByCountDescMeans: does not state that ties keep input order. `InsertByCount` defines the sort stably, but the stability is not proved.
