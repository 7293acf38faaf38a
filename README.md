# rate_partition: cluster labels to a NEXUS SETS block

`rate_partition.py` clusters the sites of an alignment by their evolutionary
rate and writes one NEXUS character set per cluster into the output file.
This project models, in Dafny, the part of the script that turns the
per-site cluster labels into that block of text, and proves what the text
says about the clusters.

The model has three stages:

- **Grouping.** This is the loop of `main` that appends site `idx + 1` to the
  list of `labels[idx]` in a `defaultdict(list)`. `Clustering.GroupSites` is
  a method over a `map<int, seq<int>>`, proved against the function
  `Clustering.Clusters`.
- **Range encoding.** This covers `group_ranges` and `range_to_string`.
  - The `itertools.groupby` call with the counter key `next(count()) - x` is
    `RangeEncoding.Runs`. It splits a list into maximal runs of consecutive
    integers.
  - `RangeEncoding.GroupRanges` yields `[first]` or `[first, last]` per run.
  - `RangeEncoding.RangeToString` joins the `-`-joined groups with spaces.
  - `RangeEncoding.Decode` reads such a string back, so that the encoding
    can be stated as a round trip.
- **Block rendering.** `create_sets_block` is the method
  `SetsBlock.CreateSetsBlock`. Its loop collects the header, one
  `charset cluster_<k> = <ranges>;` line per entry and the footer, then joins
  them with newlines. `SetsBlock.ParseSetsBlock` reads the block back.

Around them:

- Module `Strings` holds the Python text operations the script relies on:
  `sep.join`, `s.split(c)`, `str` on integers and its inverse.
- `Clustering.PartitionBlock` strings the stages together as lines 86-92
  do.

The dictionary that `create_sets_block` receives is iterated with
`iteritems()`, whose order Python does not fix. The model fixes it to
ascending label (`Clustering.LabelOrder`). `create_sets_block` itself takes
its entries as a sequence of `(label, sites)` pairs in that order.

Before encoding, the sites of a cluster are passed on exactly as the loop
built them; the code does not sort them. The model follows the code.
`Clustering.ClustersPartition` proves the lists are already strictly
increasing, so sorting first would not change them.

## Model

| member | source | states |
|---|---|---|
| RangeEncoding.IntsToStrings | rate_partition.py:53 | `[str(x) for x in xs]`: one string per integer, the i-th being `str(xs[i])`. |
| RangeEncoding.Runs | rate_partition.py:51-52 | `groupby` with key `i - L[i]` yields no empty group. There is one group for a non-empty list with no gaps, plus one per position where `L[i+1] != L[i] + 1`. RunsSplit states what the groups are. |
| RangeEncoding.RunsSplit | rate_partition.py:51-52 | The groups cut `L`, in order, into runs of consecutive integers, and no two neighbouring runs could merge. |
| RangeEncoding.RunsUnique | rate_partition.py:51 | Any split of `L` into maximal runs of consecutive integers is exactly the one `groupby` produces. |
| RangeEncoding.RunsShape | rate_partition.py:51 | Within a run, each element is the previous plus 1. The last element of a run plus 1 is never the first element of the next run. |
| RangeEncoding.IntervalOfRun | rate_partition.py:51-53 | A run is the whole interval from its first to its last element, so `first-last` loses nothing. |
| RangeEncoding.RunEnds | rate_partition.py:52-53 | `[grouped[0], grouped[-1]][:len(grouped)]`, rendered with `str`, is `[str(first)]` for a run of one and `[str(first), str(last)]` otherwise. |
| RangeEncoding.GroupRanges | rate_partition.py:48-53 | `group_ranges(L)` yields one group per maximal run, which makes none for `[]` and 1 + the number of gaps otherwise. Each group holds one or two strings. GroupRangesShape fixes each group's contents. |
| RangeEncoding.GroupRangesShape | rate_partition.py:48-53 | `group_ranges` yields one group per maximal run, in order. Each group is `[first]` for a singleton run, otherwise `[first, last]` of that run. |
| RangeEncoding.RangeToString | rate_partition.py:55-59 | `range_to_string(L)` is empty exactly when `L` is empty. RoundTrip, TokenCount and RangeToStringShortLists state the rest of what the string says about `L`. |
| RangeEncoding.RangeToStringShortLists | rate_partition.py:55-59 | `range_to_string([])` is `""`, and `range_to_string([n])` is `str(n)`. |
| RangeEncoding.TokenCount | rate_partition.py:55-59 | For a non-empty list, the output splits on spaces into one token per maximal run, which is 1 plus the number of gaps. |
| RangeEncoding.SplitRangeString | rate_partition.py:59 | No token holds a space, so splitting the output on spaces recovers the tokens exactly. |
| RangeEncoding.RunTokenRoundTrip | rate_partition.py:53 | The token `"n"` or `"a-b"` of a run of non-negative integers reads back as that run. |
| RangeEncoding.DecodeRuns | rate_partition.py:58-59 | Reading the tokens of a sequence of runs in order gives back their concatenation. |
| RangeEncoding.RoundTrip | rate_partition.py:48-59 | For any list of non-negative integers, sorted or not, splitting `range_to_string(L)` on spaces and expanding each `a-b` to `a..b` gives back `L` exactly, in order. |
| RangeEncoding.RangeStringHasNoNewline | rate_partition.py:55-59 | A range list holds no newline, so it cannot break a line of the block. |
| SetsBlock.CharsetLine | rate_partition.py:67 | `"charset cluster_{0} = {1};".format(k, range_to_string(v))` starts with `charset cluster_` and ends with `;`. CharsetLineRoundTrip shows it determines `k` and `v`. |
| SetsBlock.CharsetLineHasNoNewline | rate_partition.py:67 | A charset line holds no newline. |
| SetsBlock.SetsBlockLines | rate_partition.py:64-68 | The `lines` list has entries + 2 elements, `begin sets;` first and `end;` last. BlockLines fixes every line in between. |
| SetsBlock.CreateSetsBlock | rate_partition.py:61-69 | The loop appends the header, then one charset line per entry in order, then the footer. The result is those lines joined by `"\n"`. |
| SetsBlock.MapAppend | rate_partition.py:66-67 | One more entry adds exactly its own line at the end, as each `lines.append` in the loop does. `CreateSetsBlock`'s loop relies on it. |
| SetsBlock.BlockLines | rate_partition.py:61-69 | Splitting the block at newlines gives exactly entries + 2 lines: `begin sets;`, line i+1 is `charset cluster_<k_i> = <range_to_string(v_i)>;`, and the last is `end;`. Nothing else appears. |
| SetsBlock.CharsetLineRoundTrip | rate_partition.py:67 | A charset line reads back as the label and the sites it was written from, for non-negative sites. |
| SetsBlock.BlockRoundTrip | rate_partition.py:61-69 | The whole block reads back as the entries it was written from, in order. |
| Clustering.SitesLabelled | rate_partition.py:87-88 | The list built for one label holds only site numbers in 1..N, and it is non-empty when the label occurs. SitesLabelledMembers states exactly which sites it holds. |
| Clustering.Clusters | rate_partition.py:86-88 | The dictionary the loop builds: no cluster is empty, and every listed site is in 1..N. ClustersPartition, ClustersDisjoint and ClusterSizesSum prove it partitions the sites. |
| Clustering.GroupSites | rate_partition.py:86-88 | The `defaultdict(list)` loop builds exactly `Clusters(labels)`: label `c` maps to the sites `s` in 1..N with `labels[s-1] == c`, ascending. |
| Clustering.ClustersStep | rate_partition.py:87-88 | One iteration appends `idx + 1` to the list of `labels[idx]`. That list starts empty when the label is new. |
| Clustering.SitesLabelledMembers | rate_partition.py:87-88 | A site is listed under a label exactly when it carries that label, and each list is strictly increasing. |
| Clustering.AbsentLabelHasNoSites | rate_partition.py:86 | A label that never occurs has no sites, so the default empty list is the right start. |
| Clustering.ClustersPartition | rate_partition.py:86-88 | The keys are exactly the labels that occur, and no cluster is empty. Each cluster is strictly increasing. Site `s` lies in cluster `c` iff `labels[s-1] == c`, and every site's label is a key. |
| Clustering.ClustersDisjoint | rate_partition.py:86-88 | No site lies in two clusters. |
| Clustering.ClusterSizesSum | rate_partition.py:86-88 | The cluster sizes sum to the number of sites N. |
| Clustering.InsertKey | rate_partition.py:66 | Inserting a label keeps the visiting order strictly increasing and adds exactly that label. |
| Clustering.LabelOrder | rate_partition.py:66 | The order in which clusters are visited is strictly increasing and holds exactly the labels that occur. |
| Clustering.ClusterEntries | rate_partition.py:66 | `clusters.iteritems()`: one entry per label in the visiting order. Each entry pairs a label that occurs with exactly that label's sites. |
| Clustering.ClusterEntriesListClusters | rate_partition.py:66 | The entries passed to `create_sets_block` visit every cluster once, in ascending order of label, each with its own list of sites. |
| Clustering.ClusterSitesNonNegative | rate_partition.py:88 | Sites count from 1, so every listed site is non-negative. |
| Clustering.PartitionBlock | rate_partition.py:86-92 | Grouping then rendering gives the block of the clusters' entries in ascending label order. |
| Clustering.PartitionBlockRoundTrip | rate_partition.py:86-92 | The block for a labelling has one line per label that occurs, plus header and footer. It reads back as the clusters with their sites. |
| Strings.Join | rate_partition.py:59 | `sep.join(parts)` is `""` for no parts, and otherwise starts with the first part. SplitJoin and JoinSplit tie it to `split`. |
| Strings.Split | rate_partition.py:59 | `s.split(c)`, used to read the joined text back: at least one piece, and no piece holds `c`. |
| Strings.NatToString | rate_partition.py:53 | `str(n)` for `n >= 0` is a non-empty run of decimal digits with no leading zero. ParseNatToString shows it determines `n`. |
| Strings.SplitJoin | rate_partition.py:69 | `c.join(parts).split(c) == parts` when no part holds `c`. |
| Strings.JoinSplit | rate_partition.py:59 | `c.join(s.split(c)) == s`. |
| Strings.ParseNatToString | rate_partition.py:53 | `int(str(n)) == n` for every non-negative `n`. |
| Strings.ParseIntToString | rate_partition.py:67 | `int(str(k)) == k` for every integer label `k`, negative or not. |
| Strings.IntToString | rate_partition.py:53 | `str(x)` is non-empty, holds no space, newline or `;`, and holds a `-` exactly when `x` is negative. |

## Left out

- The k-means call (`kmeans2`, rate_partition.py:85) is a floating-point numerical library routine. Its labels are the input `labels`, an arbitrary integer sequence.
- `labels` comes from `kmeans2` run on `all_rates.values()` (rate_partition.py:85), which lists the rates in the dictionary order of their string keys. So `labels[idx]` belongs to the idx-th rate in that order, and "site idx + 1" means that position in the enumeration, exactly as line 88 writes it. It is not necessarily the site number in the rates file. The model takes `labels` as given and makes no claim about that mapping.
- Reading the rates file is not modelled. That covers CSV sniffing in `guess_csv`, file handles, `float` parsing and the rates dictionary (rate_partition.py:39-46, 74-82).
- Reading and writing the alignment through `dendropy` (rate_partition.py:91-92) is external I/O. The model stops at the text of the SETS block that is handed to it.
- Command-line parsing and path expansion (`get_args`, `FullPaths`, rate_partition.py:16-37) are not modelled.
- `split_nexus.py` is not part of this model. It only exports named subsets through `dendropy` and creates files and directories.
- Clustering.LabelOrder: `dict.iteritems()` order is not specified by Python. The model fixes it to ascending label.
- RangeEncoding.RoundTrip: stated for non-negative integers only. `str` writes a negative number with a leading `-`, the same character that separates a range, so `"-3--2"` would not read back unambiguously. Sites are at least 1, so the script never meets this case.
- RangeEncoding.Decode, SetsBlock.ParseSetsBlock and Strings.ParseInt: these readers are not in the script; they exist to state the round trips. `ParseNat` accepts only plain decimal digits, not Python's wider `int()` syntax.
- The in-place `list.append` calls (rate_partition.py:65-68, 88) are modelled as building new sequences and maps. No list is shared, so no aliasing is lost.
