/**
 * The grouping of rate_partition.py:86-88: every site (numbered from 1) goes
 * to the cluster of its k-means label, in site order, and the clusters then
 * feed `create_sets_block` (rate_partition.py:92).  The k-means labelling
 * itself arrives as the parameter `labels`.
 */
module Clustering {
  import opened Wrappers
  import opened Strings
  import opened RangeEncoding
  import opened SetsBlock

  predicate StrictlyIncreasing(xs: seq<int>)
  {
    forall i, j :: 0 <= i < j < |xs| ==> xs[i] < xs[j]
  }

  /** The sites whose label is `cluster`, in ascending order; site s has label `labels[s - 1]`. */
  function SitesLabelled(labels: seq<int>, cluster: int): (sites: seq<int>)
    ensures forall k :: 0 <= k < |sites| ==> 1 <= sites[k] <= |labels|
    ensures cluster in labels ==> |sites| > 0
    decreases |labels|
  {
    if |labels| == 0 then []
    else
      assert labels == labels[..|labels| - 1] + [labels[|labels| - 1]];
      var before := SitesLabelled(labels[..|labels| - 1], cluster);
      if labels[|labels| - 1] == cluster then before + [|labels|] else before
  }

  /** The dictionary the loop builds: one list of sites per label that occurs. */
  function Clusters(labels: seq<int>): (clusters: map<int, seq<int>>)
    ensures forall c :: c in clusters ==> |clusters[c]| > 0
    ensures forall c :: c in clusters ==> forall k :: 0 <= k < |clusters[c]| ==> 1 <= clusters[c][k] <= |labels|
  {
    map cluster | cluster in labels :: SitesLabelled(labels, cluster)
  }

  /**
   * A site is listed under a label exactly when it carries that label, and
   * each list is strictly increasing.
   */
  lemma {:induction false} SitesLabelledMembers(labels: seq<int>, cluster: int)
    ensures forall s :: s in SitesLabelled(labels, cluster) <==> 1 <= s <= |labels| && labels[s - 1] == cluster
    ensures StrictlyIncreasing(SitesLabelled(labels, cluster))
    decreases |labels|
  {
    if |labels| > 0 {
      var n := |labels|;
      var prefix := labels[..n - 1];
      var before := SitesLabelled(prefix, cluster);
      SitesLabelledMembers(prefix, cluster);
      assert forall i :: 0 <= i < n - 1 ==> prefix[i] == labels[i];
      if labels[n - 1] == cluster {
        var sites := before + [n];
        assert SitesLabelled(labels, cluster) == sites;
        forall i, j | 0 <= i < j < |sites| ensures sites[i] < sites[j] {
          if j == |sites| - 1 {
            assert sites[i] in before;
          }
        }
      }
    }
  }

  /** A label that never occurs has no sites. */
  lemma {:induction false} AbsentLabelHasNoSites(labels: seq<int>, cluster: int)
    requires cluster !in labels
    ensures SitesLabelled(labels, cluster) == []
    decreases |labels|
  {
    if |labels| > 0 {
      var prefix := labels[..|labels| - 1];
      assert forall i :: 0 <= i < |prefix| ==> prefix[i] == labels[i];
      assert labels[|labels| - 1] in labels;
      AbsentLabelHasNoSites(prefix, cluster);
    }
  }

  /**
   * The clusters partition the sites 1..N: the keys are exactly the labels
   * that occur, no cluster is empty, each cluster is strictly increasing,
   * and a site lies in a cluster exactly when it carries that cluster's
   * label, so it lies in exactly one.
   */
  lemma ClustersPartition(labels: seq<int>)
    ensures forall c :: c in Clusters(labels) <==> c in labels
    ensures forall c :: c in Clusters(labels) ==> |Clusters(labels)[c]| > 0
    ensures forall c :: c in Clusters(labels) ==> StrictlyIncreasing(Clusters(labels)[c])
    ensures forall c :: c in Clusters(labels) ==>
      forall s :: s in Clusters(labels)[c] <==> 1 <= s <= |labels| && labels[s - 1] == c
    ensures forall i :: 0 <= i < |labels| ==> labels[i] in Clusters(labels)
  {
    var m := Clusters(labels);
    forall c | c in m
      ensures |m[c]| > 0 && StrictlyIncreasing(m[c])
      ensures forall s :: s in m[c] <==> 1 <= s <= |labels| && labels[s - 1] == c
    {
      SitesLabelledMembers(labels, c);
      var i :| 0 <= i < |labels| && labels[i] == c;
      assert i + 1 in m[c];
    }
  }

  /** No site lies in two clusters. */
  lemma ClustersDisjoint(labels: seq<int>, c: int, d: int, s: int)
    requires c in Clusters(labels) && d in Clusters(labels)
    requires s in Clusters(labels)[c] && s in Clusters(labels)[d]
    ensures c == d
  {
    ClustersPartition(labels);
  }

  /** One step of the loop: site `idx + 1` is appended to the list of its label, created empty if new. */
  lemma ClustersStep(labels: seq<int>, idx: nat)
    requires idx < |labels|
    ensures var m := Clusters(labels[..idx]);
            var c := labels[idx];
            Clusters(labels[..idx + 1]) == m[c := (if c in m then m[c] else []) + [idx + 1]]
  {
    var p, q := labels[..idx], labels[..idx + 1];
    var c := labels[idx];
    var m := Clusters(p);
    assert q[..|q| - 1] == p && q[|q| - 1] == c;
    assert q == p + [c];
    if c !in p {
      AbsentLabelHasNoSites(p, c);
    }
    var stepped := m[c := (if c in m then m[c] else []) + [idx + 1]];
    forall d | d in stepped
      ensures d in Clusters(q) && Clusters(q)[d] == stepped[d]
    {
      assert d in q;
    }
    assert Clusters(q).Keys == stepped.Keys;
  }

  /**
   * The loop of rate_partition.py:86-88: a `defaultdict(list)` that gets
   * `idx + 1` appended under `labels[idx]` for every index in turn.
   */
  method GroupSites(labels: seq<int>) returns (clusters: map<int, seq<int>>)
    ensures clusters == Clusters(labels)
  {
    clusters := map[];
    for idx := 0 to |labels|
      invariant clusters == Clusters(labels[..idx])
    {
      var cluster := labels[idx];
      var sites := if cluster in clusters then clusters[cluster] else [];
      ClustersStep(labels, idx);
      clusters := clusters[cluster := sites + [idx + 1]];
    }
    assert labels[..|labels|] == labels;
  }

  /** `key` put into its place in the strictly increasing `keys`, unless it is there already. */
  function InsertKey(keys: seq<int>, key: int): (r: seq<int>)
    requires StrictlyIncreasing(keys)
    ensures StrictlyIncreasing(r)
    ensures forall k :: k in r <==> k in keys || k == key
  {
    if |keys| == 0 || key < keys[0] then [key] + keys
    else if key == keys[0] then keys
    else
      var rest := InsertKey(keys[1..], key);
      assert forall j :: 0 <= j < |rest| ==> keys[0] < rest[j] by {
        forall j | 0 <= j < |rest| ensures keys[0] < rest[j] {
          assert rest[j] in rest;
          if rest[j] != key {
            var i :| 0 <= i < |keys[1..]| && keys[1..][i] == rest[j];
            assert keys[i + 1] == rest[j];
          }
        }
      }
      [keys[0]] + rest
  }

  /**
   * The labels that occur, each once, in ascending order: the order in
   * which `sets.iteritems()` visits the clusters.
   */
  function LabelOrder(labels: seq<int>): (keys: seq<int>)
    ensures StrictlyIncreasing(keys)
    ensures forall k :: k in keys <==> k in labels
  {
    if |labels| == 0 then []
    else
      var prefix := labels[..|labels| - 1];
      assert forall k :: k in labels <==> k in prefix || k == labels[|labels| - 1] by {
        assert labels == prefix + [labels[|labels| - 1]];
      }
      InsertKey(LabelOrder(prefix), labels[|labels| - 1])
  }

  /** The (label, sites) pairs of a dictionary, taken in the order `keys`. */
  function EntriesFor(m: map<int, seq<int>>, keys: seq<int>): (entries: seq<(int, seq<int>)>)
    requires forall i :: 0 <= i < |keys| ==> keys[i] in m
    ensures |entries| == |keys|
  {
    if |keys| == 0 then [] else [(keys[0], m[keys[0]])] + EntriesFor(m, keys[1..])
  }

  /** `clusters.iteritems()` for the clusters of a labelling. */
  function ClusterEntries(labels: seq<int>): (entries: seq<(int, seq<int>)>)
    ensures |entries| == |LabelOrder(labels)|
    ensures forall i :: 0 <= i < |entries| ==> entries[i].0 in labels && entries[i].1 == SitesLabelled(labels, entries[i].0)
  {
    var keys := LabelOrder(labels);
    EntriesForAll(Clusters(labels), keys);
    EntriesFor(Clusters(labels), keys)
  }

  lemma {:induction false} EntriesForAt(m: map<int, seq<int>>, ks: seq<int>, i: nat)
    requires forall j :: 0 <= j < |ks| ==> ks[j] in m
    requires i < |ks|
    ensures EntriesFor(m, ks)[i] == (ks[i], m[ks[i]])
    decreases i
  {
    if i > 0 {
      EntriesForAt(m, ks[1..], i - 1);
    }
  }

  lemma EntriesForAll(m: map<int, seq<int>>, ks: seq<int>)
    requires forall j :: 0 <= j < |ks| ==> ks[j] in m
    ensures forall i :: 0 <= i < |ks| ==> EntriesFor(m, ks)[i] == (ks[i], m[ks[i]])
  {
    forall i | 0 <= i < |ks| ensures EntriesFor(m, ks)[i] == (ks[i], m[ks[i]]) {
      EntriesForAt(m, ks, i);
    }
  }

  /**
   * The entries visit every cluster once, in ascending order of label, each
   * with its own list of sites.
   */
  lemma ClusterEntriesListClusters(labels: seq<int>)
    ensures forall i :: 0 <= i < |ClusterEntries(labels)| ==>
      ClusterEntries(labels)[i].0 in Clusters(labels) &&
      ClusterEntries(labels)[i].1 == Clusters(labels)[ClusterEntries(labels)[i].0]
    ensures forall i, j :: 0 <= i < j < |ClusterEntries(labels)| ==>
      ClusterEntries(labels)[i].0 < ClusterEntries(labels)[j].0
    ensures forall c :: c in Clusters(labels) ==>
      exists i :: 0 <= i < |ClusterEntries(labels)| && ClusterEntries(labels)[i].0 == c
  {
    var m, keys := Clusters(labels), LabelOrder(labels);
    var entries := ClusterEntries(labels);
    EntriesForAll(m, keys);
    assert forall i :: 0 <= i < |keys| ==> entries[i].0 == keys[i];
    forall c | c in m ensures exists i :: 0 <= i < |entries| && entries[i].0 == c {
      var i :| 0 <= i < |keys| && keys[i] == c;
      assert entries[i].0 == c;
    }
  }

  /** The number of sites listed over all entries. */
  function TotalSites(entries: seq<(int, seq<int>)>): nat
  {
    if |entries| == 0 then 0 else |entries[0].1| + TotalSites(entries[1..])
  }

  /** The number of sites carrying any of the labels `ks`, counted label by label. */
  function SizesOver(labels: seq<int>, ks: seq<int>): nat
  {
    if |ks| == 0 then 0 else |SitesLabelled(labels, ks[0])| + SizesOver(labels, ks[1..])
  }

  lemma {:induction false} SizesOverNoSites(ks: seq<int>)
    ensures SizesOver([], ks) == 0
    decreases |ks|
  {
    if |ks| > 0 {
      SizesOverNoSites(ks[1..]);
    }
  }

  /** One more site adds one to the count of the labels exactly when its label is among them. */
  lemma {:induction false} SizesOverStep(labels: seq<int>, ks: seq<int>)
    requires |labels| > 0
    requires StrictlyIncreasing(ks)
    ensures SizesOver(labels, ks) ==
      SizesOver(labels[..|labels| - 1], ks) + (if labels[|labels| - 1] in ks then 1 else 0)
    decreases |ks|
  {
    if |ks| > 0 {
      var rest := ks[1..];
      assert StrictlyIncreasing(rest) by {
        forall i, j | 0 <= i < j < |rest| ensures rest[i] < rest[j] {
          assert rest[i] == ks[i + 1] && rest[j] == ks[j + 1];
        }
      }
      SizesOverStep(labels, rest);
      var c := labels[|labels| - 1];
      if c == ks[0] {
        assert c !in rest by {
          forall j | 0 <= j < |rest| ensures rest[j] != c {
            assert rest[j] == ks[j + 1];
          }
        }
      }
      assert c in ks <==> c == ks[0] || c in rest;
    }
  }

  /** Counting label by label over labels that cover every site counts every site once. */
  lemma {:induction false} SizesOverAll(labels: seq<int>, ks: seq<int>)
    requires StrictlyIncreasing(ks)
    requires forall i :: 0 <= i < |labels| ==> labels[i] in ks
    ensures SizesOver(labels, ks) == |labels|
    decreases |labels|
  {
    if |labels| == 0 {
      SizesOverNoSites(ks);
    } else {
      var prefix := labels[..|labels| - 1];
      assert forall i :: 0 <= i < |prefix| ==> prefix[i] == labels[i];
      SizesOverAll(prefix, ks);
      SizesOverStep(labels, ks);
    }
  }

  lemma {:induction false} TotalSitesOfClusters(labels: seq<int>, ks: seq<int>)
    requires forall i :: 0 <= i < |ks| ==> ks[i] in Clusters(labels)
    ensures TotalSites(EntriesFor(Clusters(labels), ks)) == SizesOver(labels, ks)
    decreases |ks|
  {
    if |ks| > 0 {
      TotalSitesOfClusters(labels, ks[1..]);
    }
  }

  /** The cluster sizes add up to the number of sites. */
  lemma ClusterSizesSum(labels: seq<int>)
    ensures TotalSites(ClusterEntries(labels)) == |labels|
  {
    var keys := LabelOrder(labels);
    TotalSitesOfClusters(labels, keys);
    assert forall i :: 0 <= i < |labels| ==> labels[i] in keys;
    SizesOverAll(labels, keys);
  }

  /** Every cluster lists sites numbered from 1, so none is negative. */
  lemma ClusterSitesNonNegative(labels: seq<int>)
    ensures NonNegativeSites(ClusterEntries(labels))
  {
    var m := Clusters(labels);
    var entries := ClusterEntries(labels);
    ClusterEntriesListClusters(labels);
    ClustersPartition(labels);
    forall i | 0 <= i < |entries| ensures NonNegative(entries[i].1) {
      var sites := entries[i].1;
      forall k | 0 <= k < |sites| ensures sites[k] >= 0 {
        assert sites[k] in m[entries[i].0];
      }
    }
  }

  /** Lines 86-92: group the sites by label, then write the SETS block of the clusters. */
  method PartitionBlock(labels: seq<int>) returns (block: string)
    ensures block == Join("\n", SetsBlockLines(ClusterEntries(labels)))
  {
    var clusters := GroupSites(labels);
    var order := LabelOrder(labels);
    assert forall i :: 0 <= i < |order| ==> order[i] in labels;
    block := CreateSetsBlock(EntriesFor(clusters, order));
  }

  /**
   * The block written for a labelling has one line per label that occurs
   * between its header and footer, and reads back as the clusters in
   * ascending order of label.
   */
  lemma PartitionBlockRoundTrip(labels: seq<int>)
    ensures var block := Join("\n", SetsBlockLines(ClusterEntries(labels)));
            && |Split(block, '\n')| == |LabelOrder(labels)| + 2
            && ParseSetsBlock(block) == Some(ClusterEntries(labels))
  {
    var entries := ClusterEntries(labels);
    BlockLines(entries);
    ClusterSitesNonNegative(labels);
    BlockRoundTrip(entries);
  }
}
