/**
 * `create_sets_block` (rate_partition.py:61-69): the NEXUS `SETS` block that
 * declares one character set per cluster.  `ParseSetsBlock` reads such a
 * block back, so that the rendering can be stated as a round trip.
 */
module SetsBlock {
  import opened Wrappers
  import opened Strings
  import opened RangeEncoding

  const Header: string := "begin sets;"
  const Footer: string := "end;"
  const CharsetPrefix: string := "charset cluster_"

  /** `"charset cluster_{0} = {1};".format(k, range_to_string(v))`. */
  function CharsetLine(cluster: int, sites: seq<int>): (line: string)
    ensures |line| > |CharsetPrefix| + 4 && line[..|CharsetPrefix|] == CharsetPrefix && line[|line| - 1] == ';'
  {
    Framed(CharsetPrefix, IntToString(cluster) + " = " + RangeToString(sites), ';');
    CharsetPrefix + (IntToString(cluster) + " = " + RangeToString(sites)) + [';']
  }

  /** The charset line of one `(k, v)` entry. */
  function EntryLine(entry: (int, seq<int>)): string
  {
    CharsetLine(entry.0, entry.1)
  }

  /** `[f(e) for e in es]`. */
  function Map<E, R>(f: E -> R, es: seq<E>): (rs: seq<R>)
    ensures |rs| == |es|
  {
    if |es| == 0 then [] else [f(es[0])] + Map(f, es[1..])
  }

  /** One more element adds exactly its own image at the end. */
  lemma {:induction false} MapAppend<E, R>(f: E -> R, es: seq<E>, e: E)
    ensures Map(f, es + [e]) == Map(f, es) + [f(e)]
    decreases |es|
  {
    if |es| > 0 {
      assert (es + [e])[1..] == es[1..] + [e];
      MapAppend(f, es[1..], e);
    }
  }

  /** Element i of the image is the image of element i. */
  lemma {:induction false} MapAt<E, R>(f: E -> R, es: seq<E>, i: nat)
    requires i < |es|
    ensures Map(f, es)[i] == f(es[i])
    decreases i
  {
    if i > 0 {
      MapAt(f, es[1..], i - 1);
    }
  }

  /** One charset line per entry, in the order of the entries. */
  function CharsetLines(sets: seq<(int, seq<int>)>): (lines: seq<string>)
    ensures |lines| == |sets|
  {
    Map(EntryLine, sets)
  }

  /** The lines `create_sets_block` collects before joining them. */
  function SetsBlockLines(sets: seq<(int, seq<int>)>): (lines: seq<string>)
    ensures |lines| == |sets| + 2 && lines[0] == Header && lines[|sets| + 1] == Footer
  {
    [Header] + CharsetLines(sets) + [Footer]
  }

  lemma PrefixGrows<T>(s: seq<T>, i: nat)
    requires i < |s|
    ensures s[..i + 1] == s[..i] + [s[i]]
  {
  }

  lemma PrefixWhole<T>(s: seq<T>)
    ensures s[..|s|] == s
  {
  }

  lemma AppendAfterHead<T>(head: T, done: seq<T>, x: T)
    ensures [head] + done + [x] == [head] + (done + [x])
  {
  }

  /** `create_sets_block(sets)`: collect the lines in a list, then join them with newlines. */
  method CreateSetsBlock(sets: seq<(int, seq<int>)>) returns (block: string)
    ensures block == Join("\n", SetsBlockLines(sets))
  {
    var lines: seq<string> := [];
    lines := lines + [Header];
    for i := 0 to |sets|
      invariant lines == [Header] + CharsetLines(sets[..i])
    {
      var (k, v) := sets[i];
      var line := CharsetLine(k, v);
      ghost var done := CharsetLines(sets[..i]);
      PrefixGrows(sets, i);
      MapAppend(EntryLine, sets[..i], sets[i]);
      assert CharsetLines(sets[..i + 1]) == done + [line];
      AppendAfterHead(Header, done, line);
      lines := lines + [line];
    }
    PrefixWhole(sets);
    lines := lines + [Footer];
    assert lines == SetsBlockLines(sets);
    block := Join("\n", lines);
  }

  /** Reads back one charset line: its cluster and the sites its ranges stand for. */
  function ParseCharsetLine(line: string): Option<(int, seq<int>)>
  {
    if |line| < |CharsetPrefix| + 1 || line[..|CharsetPrefix|] != CharsetPrefix || line[|line| - 1] != ';' then None
    else
      var parts := Split(line[|CharsetPrefix|..|line| - 1], ' ');
      if |parts| < 3 || parts[1] != "=" then None
      else
        match (ParseInt(parts[0]), Decode(Join(" ", parts[2..])))
        case (Some(cluster), Some(sites)) => Some((cluster, sites))
        case _ => None
  }

  function ParseCharsetLines(lines: seq<string>): Option<seq<(int, seq<int>)>>
  {
    if |lines| == 0 then Some([])
    else
      match (ParseCharsetLine(lines[0]), ParseCharsetLines(lines[1..]))
      case (Some(entry), Some(entries)) => Some([entry] + entries)
      case _ => None
  }

  /** Reads back a whole block: header, charset lines, footer, one per line. */
  function ParseSetsBlock(block: string): Option<seq<(int, seq<int>)>>
  {
    var lines := Split(block, '\n');
    if |lines| < 2 || lines[0] != Header || lines[|lines| - 1] != Footer then None
    else ParseCharsetLines(lines[1..|lines| - 1])
  }

  /** Every list of sites in the entries is non-negative. */
  predicate NonNegativeSites(sets: seq<(int, seq<int>)>)
  {
    forall i :: 0 <= i < |sets| ==> NonNegative(sets[i].1)
  }

  /** Splitting `"= " + ranges` on spaces gives `=`, then the range tokens. */
  lemma SplitEqualsSign(ranges: string)
    ensures Split("= " + ranges, ' ') == ["="] + Split(ranges, ' ')
  {
    assert "= " + ranges == "=" + ([' '] + ranges);
    SplitAtSeparator(ranges, ' ');
    SplitPrefix("=", [' '] + ranges, ' ');
    assert "=" + "" == "=";
  }

  /** Splitting a charset line's body on spaces gives the cluster, `=`, then the range tokens. */
  lemma SplitCharsetBody(cluster: string, ranges: string)
    requires ' ' !in cluster
    ensures Split(cluster + " = " + ranges, ' ') == [cluster, "="] + Split(ranges, ' ')
  {
    var rest := "= " + ranges;
    SplitEqualsSign(ranges);
    assert cluster + " = " + ranges == cluster + ([' '] + rest);
    SplitAtSeparator(rest, ' ');
    SplitPrefix(cluster, [' '] + rest, ' ');
    assert cluster + "" == cluster;
  }

  /** Cutting off a known prefix and a last element leaves what was between them. */
  lemma Framed<T>(a: seq<T>, b: seq<T>, c: T)
    ensures (a + b + [c])[..|a|] == a
    ensures (a + b + [c])[|a|..|a| + |b|] == b
    ensures (a + b + [c])[|a| + |b|] == c
  {
  }

  /** A charset line reads back as the cluster and sites it was written from. */
  lemma CharsetLineRoundTrip(cluster: int, sites: seq<int>)
    requires NonNegative(sites)
    ensures ParseCharsetLine(CharsetLine(cluster, sites)) == Some((cluster, sites))
  {
    var line := CharsetLine(cluster, sites);
    var name, ranges := IntToString(cluster), RangeToString(sites);
    var body := name + " = " + ranges;
    assert line == CharsetPrefix + body + [';'];
    Framed(CharsetPrefix, body, ';');
    SplitCharsetBody(name, ranges);
    var parts := Split(body, ' ');
    assert parts[2..] == Split(ranges, ' ');
    JoinSplit(ranges, ' ');
    ParseIntToString(cluster);
    RoundTrip(sites);
  }

  lemma ParseCharsetLinesCons(lines: seq<string>, entry: (int, seq<int>), entries: seq<(int, seq<int>)>)
    requires |lines| > 0
    requires ParseCharsetLine(lines[0]) == Some(entry)
    requires ParseCharsetLines(lines[1..]) == Some(entries)
    ensures ParseCharsetLines(lines) == Some([entry] + entries)
  {
  }

  /** A charset line holds no newline, so it stays one line of the block. */
  lemma CharsetLineHasNoNewline(cluster: int, sites: seq<int>)
    ensures '\n' !in CharsetLine(cluster, sites)
  {
    var body := IntToString(cluster) + " = " + RangeToString(sites);
    RangeStringHasNoNewline(sites);
    assert '\n' !in body;
    NotInFramed(CharsetPrefix, body, ';', '\n');
  }

  lemma NotInFramed<T>(a: seq<T>, b: seq<T>, c: T, x: T)
    requires x !in a && x !in b && x != c
    ensures x !in a + b + [c]
  {
  }

  lemma {:induction false} CharsetLinesRoundTrip(sets: seq<(int, seq<int>)>)
    requires NonNegativeSites(sets)
    ensures ParseCharsetLines(CharsetLines(sets)) == Some(sets)
    decreases |sets|
  {
    if |sets| > 0 {
      var lines := CharsetLines(sets);
      CharsetLineRoundTrip(sets[0].0, sets[0].1);
      CharsetLinesRoundTrip(sets[1..]);
      ParseCharsetLinesCons(lines, sets[0], sets[1..]);
      assert sets == [sets[0]] + sets[1..];
    }
  }

  lemma CharsetLinesHaveNoNewline(sets: seq<(int, seq<int>)>)
    ensures forall i :: 0 <= i < |sets| ==> '\n' !in CharsetLines(sets)[i]
  {
    forall i | 0 <= i < |sets| ensures '\n' !in CharsetLines(sets)[i] {
      MapAt(EntryLine, sets, i);
      CharsetLineHasNoNewline(sets[i].0, sets[i].1);
    }
  }

  lemma Enclosed<T>(head: T, middle: seq<T>, foot: T, i: nat)
    requires i < |middle|
    ensures ([head] + middle + [foot])[i + 1] == middle[i]
  {
  }

  lemma NoLineHasNewline(sets: seq<(int, seq<int>)>)
    ensures forall i :: 0 <= i < |SetsBlockLines(sets)| ==> '\n' !in SetsBlockLines(sets)[i]
  {
    var lines := SetsBlockLines(sets);
    var middle := CharsetLines(sets);
    CharsetLinesHaveNoNewline(sets);
    forall i | 0 <= i < |lines| ensures '\n' !in lines[i] {
      if 0 < i < |lines| - 1 {
        Enclosed(Header, middle, Footer, i - 1);
      }
    }
  }

  lemma LinesOfEntries(sets: seq<(int, seq<int>)>)
    ensures forall i :: 0 <= i < |sets| ==> SetsBlockLines(sets)[i + 1] == CharsetLine(sets[i].0, sets[i].1)
  {
    var lines, middle := SetsBlockLines(sets), CharsetLines(sets);
    forall i | 0 <= i < |sets| ensures lines[i + 1] == CharsetLine(sets[i].0, sets[i].1) {
      Enclosed(Header, middle, Footer, i);
      MapAt(EntryLine, sets, i);
    }
  }

  /**
   * The block is exactly its lines: splitting it at newlines gives the header,
   * one charset line per entry in order, and the footer, with nothing else.
   */
  lemma BlockLines(sets: seq<(int, seq<int>)>)
    ensures Split(Join("\n", SetsBlockLines(sets)), '\n') == SetsBlockLines(sets)
    ensures |SetsBlockLines(sets)| == |sets| + 2
    ensures SetsBlockLines(sets)[0] == Header && SetsBlockLines(sets)[|sets| + 1] == Footer
    ensures forall i :: 0 <= i < |sets| ==> SetsBlockLines(sets)[i + 1] == CharsetLine(sets[i].0, sets[i].1)
  {
    NoLineHasNewline(sets);
    SplitJoin(SetsBlockLines(sets), '\n');
    LinesOfEntries(sets);
  }

  /** Round trip: reading back the block gives the entries it was written from, in order. */
  lemma BlockRoundTrip(sets: seq<(int, seq<int>)>)
    requires NonNegativeSites(sets)
    ensures ParseSetsBlock(Join("\n", SetsBlockLines(sets))) == Some(sets)
  {
    BlockLines(sets);
    var lines := SetsBlockLines(sets);
    assert lines[1..|lines| - 1] == CharsetLines(sets);
    CharsetLinesRoundTrip(sets);
  }
}
