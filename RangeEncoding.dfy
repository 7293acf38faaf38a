/**
 * `group_ranges` and `range_to_string` (rate_partition.py:48-59): a list of
 * site indices split into maximal runs of consecutive integers and written as
 * the NEXUS charset list `"1-3 5 7-8"`.  `Decode` reads such a list back, so
 * that the encoding can be stated as a round trip.
 */
module RangeEncoding {
  import opened Wrappers
  import opened Strings

  function Last(r: seq<int>): int
    requires |r| > 0
  {
    r[|r| - 1]
  }

  /** The concatenation of all runs, in order. */
  function Flatten(runs: seq<seq<int>>): seq<int>
  {
    if |runs| == 0 then [] else runs[0] + Flatten(runs[1..])
  }

  /** A run: non-empty, and the element at offset j is the first plus j. */
  predicate IsRun(r: seq<int>)
  {
    |r| > 0 && forall j :: 0 <= j < |r| ==> r[j] == r[0] + j
  }

  /** No run ends just before the next one starts, so no two neighbours could merge. */
  predicate Maximal(runs: seq<seq<int>>)
  {
    |runs| < 2 ||
      (&& |runs[0]| > 0 && |runs[1]| > 0
       && Last(runs[0]) + 1 != runs[1][0]
       && Maximal(runs[1..]))
  }

  /** `runs` cuts `L`, in order, into maximal runs of consecutive integers. */
  predicate IsRunSplit(L: seq<int>, runs: seq<seq<int>>)
  {
    && Flatten(runs) == L
    && (forall i :: 0 <= i < |runs| ==> IsRun(runs[i]))
    && Maximal(runs)
  }

  /** The number of positions i with `L[i+1] != L[i] + 1`. */
  function Breaks(L: seq<int>): nat
    decreases |L|
  {
    if |L| < 2 then 0
    else (if L[1] != L[0] + 1 then 1 else 0) + Breaks(L[1..])
  }

  /**
   * The grouping key of line 51: `itertools.count()` hands out 0, 1, 2, ...
   * as `groupby` visits the elements, so the key of the element at position
   * i is `i - L[i]`.
   */
  function Key(L: seq<int>, i: nat): int
    requires i < |L|
  {
    i - L[i]
  }

  /**
   * `itertools.groupby(L, key)`: neighbouring elements with equal keys share
   * a group.  The recursion drops the head, which lowers every later key by
   * one and so leaves their equalities as they were.  There is one group
   * for a non-empty list with no gaps, plus one per gap, and no group is
   * empty; RunsSplit shows the groups are the maximal runs of `L`.
   */
  function Runs(L: seq<int>): (runs: seq<seq<int>>)
    ensures |runs| == if |L| == 0 then 0 else 1 + Breaks(L)
    ensures forall i :: 0 <= i < |runs| ==> |runs[i]| > 0
    decreases |L|
  {
    if |L| == 0 then []
    else
      var rest := Runs(L[1..]);
      if |L| > 1 && Key(L, 1) == Key(L, 0) then
        [[L[0]] + rest[0]] + rest[1..]
      else
        [[L[0]]] + rest
  }

  /** The groups of `groupby` cut `L`, in order, into maximal runs of consecutive integers. */
  lemma {:induction false} RunsSplit(L: seq<int>)
    ensures IsRunSplit(L, Runs(L))
    decreases |L|
  {
    if |L| > 0 {
      var rest := Runs(L[1..]);
      RunsSplit(L[1..]);
      if |L| > 1 && Key(L, 1) == Key(L, 0) {
        ExtendHeadRun(L, rest);
      } else {
        StartNewRun(L, rest);
      }
    }
  }

  lemma {:induction false} FlattenCons(head: seq<int>, rest: seq<seq<int>>)
    ensures Flatten([head] + rest) == head + Flatten(rest)
  {
    assert ([head] + rest)[1..] == rest;
  }

  lemma {:induction false} FlattenGrowHead(x: int, runs: seq<seq<int>>)
    requires |runs| > 0
    ensures Flatten([[x] + runs[0]] + runs[1..]) == [x] + Flatten(runs)
  {
    FlattenCons([x] + runs[0], runs[1..]);
    assert Flatten(runs) == runs[0] + Flatten(runs[1..]);
  }

  /** The first element of a non-empty split is the first element of its first run. */
  lemma FlattenFirst(L: seq<int>, runs: seq<seq<int>>)
    requires IsRunSplit(L, runs) && |L| > 0
    ensures |runs| > 0 && runs[0][0] == L[0]
  {
    assert Flatten(runs) == runs[0] + Flatten(runs[1..]);
  }

  /** When `L[1]` follows `L[0]`, a split of `L[1..]` extends to `L` by growing its first run. */
  lemma ExtendHeadRun(L: seq<int>, rest: seq<seq<int>>)
    requires |L| > 1 && L[1] == L[0] + 1
    requires IsRunSplit(L[1..], rest)
    requires |rest| == 1 + Breaks(L[1..])
    ensures |rest| > 0
    ensures IsRunSplit(L, [[L[0]] + rest[0]] + rest[1..])
    ensures |rest| == 1 + Breaks(L)
  {
    FlattenFirst(L[1..], rest);
    var head := [L[0]] + rest[0];
    var runs := [head] + rest[1..];
    assert Flatten(runs) == L by {
      FlattenGrowHead(L[0], rest);
      assert L == [L[0]] + L[1..];
    }
    assert IsRun(head) by {
      assert IsRun(rest[0]);
      forall j | 0 <= j < |head| ensures head[j] == head[0] + j {
        if j > 0 {
          assert head[j] == rest[0][j - 1];
        }
      }
    }
    assert forall i :: 0 <= i < |runs| ==> IsRun(runs[i]) by {
      forall i | 0 <= i < |runs| ensures IsRun(runs[i]) {
        if i > 0 {
          assert runs[i] == rest[i];
        }
      }
    }
    assert Maximal(runs) by {
      if |rest| > 1 {
        assert runs[1..] == rest[1..];
        assert Last(head) == Last(rest[0]);
        assert runs[1] == rest[1];
      }
    }
  }

  /** When `L[1]` does not follow `L[0]`, `L[0]` alone is the first run. */
  lemma StartNewRun(L: seq<int>, rest: seq<seq<int>>)
    requires |L| > 0 && (|L| > 1 ==> L[1] != L[0] + 1)
    requires IsRunSplit(L[1..], rest)
    requires |rest| == if |L| == 1 then 0 else 1 + Breaks(L[1..])
    ensures IsRunSplit(L, [[L[0]]] + rest)
    ensures |rest| + 1 == 1 + Breaks(L)
  {
    var runs := [[L[0]]] + rest;
    FlattenCons([L[0]], rest);
    assert L == [L[0]] + L[1..];
    if |L| > 1 {
      FlattenFirst(L[1..], rest);
    }
    forall i | 0 <= i < |runs| ensures IsRun(runs[i]) {
      if i > 0 {
        assert runs[i] == rest[i - 1];
      }
    }
    assert runs[1..] == rest;
  }

  /** `[str(x) for x in xs]`. */
  function IntsToStrings(xs: seq<int>): (strs: seq<string>)
    ensures |strs| == |xs|
    ensures forall i :: 0 <= i < |xs| ==> strs[i] == IntToString(xs[i])
  {
    if |xs| == 0 then [] else [IntToString(xs[0])] + IntsToStrings(xs[1..])
  }

  /** The strings `group_ranges` yields for one run: `[grouped[0], grouped[-1]][:len(grouped)]`. */
  function RunEnds(grouped: seq<int>): (ends: seq<string>)
    requires |grouped| > 0
    ensures ends == if |grouped| == 1 then [IntToString(grouped[0])]
                    else [IntToString(grouped[0]), IntToString(Last(grouped))]
  {
    var both := [grouped[0], grouped[|grouped| - 1]];
    var kept := both[..if |grouped| < 2 then |grouped| else 2];
    assert IntsToStrings(kept) == if |grouped| == 1 then [IntToString(grouped[0])]
                                   else [IntToString(grouped[0]), IntToString(Last(grouped))] by {
      if |grouped| == 1 {
        assert kept == [grouped[0]] && kept[1..] == [];
      } else {
        assert kept == both && kept[1..] == [Last(grouped)] && kept[1..][1..] == [];
      }
    }
    IntsToStrings(kept)
  }

  /** The groups `group_ranges` yields for a sequence of runs, in order. */
  function GroupsOf(runs: seq<seq<int>>): (groups: seq<seq<string>>)
    requires forall i :: 0 <= i < |runs| ==> |runs[i]| > 0
    ensures |groups| == |runs|
    ensures forall i :: 0 <= i < |groups| ==> 1 <= |groups[i]| <= 2
  {
    if |runs| == 0 then [] else [RunEnds(runs[0])] + GroupsOf(runs[1..])
  }

  /** `group_ranges(L)`: one list of one or two strings per maximal run. */
  function GroupRanges(L: seq<int>): (groups: seq<seq<string>>)
    ensures |groups| == if |L| == 0 then 0 else 1 + Breaks(L)
    ensures forall i :: 0 <= i < |groups| ==> 1 <= |groups[i]| <= 2
  {
    GroupsOf(Runs(L))
  }

  /** `['-'.join(x) for x in groups]`. */
  function JoinEach(sep: string, groups: seq<seq<string>>): (tokens: seq<string>)
    ensures |tokens| == |groups|
  {
    if |groups| == 0 then [] else [Join(sep, groups[0])] + JoinEach(sep, groups[1..])
  }

  /** The tokens of `range_to_string(L)`: `"n"` or `"start-end"` per maximal run, in order. */
  function Tokens(L: seq<int>): seq<string>
  {
    JoinEach("-", GroupRanges(L))
  }

  /** `range_to_string(L)`: the tokens of the runs joined by single spaces. */
  function RangeToString(L: seq<int>): (s: string)
    ensures s == "" <==> L == []
  {
    var tokens := Tokens(L);
    assert |L| > 0 ==> |tokens[0]| > 0 by {
      if |L| > 0 {
        var runs := Runs(L);
        assert GroupRanges(L)[0] == RunEnds(runs[0]);
        assert tokens[0] == Join("-", RunEnds(runs[0]));
      }
    }
    Join(" ", tokens)
  }

  /** The integers `a`, `a+1`, ..., `b`. */
  function Interval(a: int, b: int): (r: seq<int>)
    requires a <= b
    decreases b - a
  {
    if a == b then [a] else [a] + Interval(a + 1, b)
  }

  /** Reads one token, `"n"` or `"a-b"` with `a <= b`, as the integers it stands for. */
  function ParseToken(t: string): Option<seq<int>>
  {
    var bounds := Split(t, '-');
    if |bounds| == 1 then
      match ParseNat(bounds[0])
      case None => None
      case Some(n) => Some([n])
    else if |bounds| == 2 then
      match (ParseNat(bounds[0]), ParseNat(bounds[1]))
      case (Some(a), Some(b)) => if a <= b then Some(Interval(a, b)) else None
      case _ => None
    else None
  }

  function DecodeTokens(tokens: seq<string>): Option<seq<int>>
  {
    if |tokens| == 0 then Some([])
    else
      match (ParseToken(tokens[0]), DecodeTokens(tokens[1..]))
      case (Some(xs), Some(ys)) => Some(xs + ys)
      case _ => None
  }

  /** Reads a charset list: split on spaces, expand each `a-b` to `a..b`. */
  function Decode(s: string): Option<seq<int>>
  {
    if s == "" then Some([]) else DecodeTokens(Split(s, ' '))
  }

  predicate NonNegative(L: seq<int>)
  {
    forall i :: 0 <= i < |L| ==> L[i] >= 0
  }

  /** Group i of `group_ranges` comes from run i. */
  lemma {:induction false} GroupsOfAt(runs: seq<seq<int>>, i: nat)
    requires forall k :: 0 <= k < |runs| ==> |runs[k]| > 0
    requires i < |runs|
    ensures GroupsOf(runs)[i] == RunEnds(runs[i])
    decreases i
  {
    if i > 0 {
      GroupsOfAt(runs[1..], i - 1);
    }
  }

  /**
   * Each group `group_ranges` yields is `[first]` for a run of one and
   * `[first, last]` for a longer run.
   */
  lemma GroupRangesShape(L: seq<int>)
    ensures |GroupRanges(L)| == |Runs(L)|
    ensures forall i :: 0 <= i < |Runs(L)| ==>
      GroupRanges(L)[i] ==
        if |Runs(L)[i]| == 1 then [IntToString(Runs(L)[i][0])]
        else [IntToString(Runs(L)[i][0]), IntToString(Last(Runs(L)[i]))]
  {
    var runs := Runs(L);
    forall i | 0 <= i < |runs|
      ensures GroupRanges(L)[i] ==
        if |runs[i]| == 1 then [IntToString(runs[i][0])]
        else [IntToString(runs[i][0]), IntToString(Last(runs[i]))]
    {
      GroupsOfAt(runs, i);
    }
  }

  /** `range_to_string([])` is empty and `range_to_string([n])` is `str(n)`. */
  lemma RangeToStringShortLists(L: seq<int>)
    ensures L == [] ==> RangeToString(L) == ""
    ensures |L| == 1 ==> RangeToString(L) == IntToString(L[0])
  {
    if |L| == 1 {
      var runs := Runs(L);
      RunsSplit(L);
      FlattenFirst(L, runs);
      assert runs == [[L[0]]];
      assert GroupRanges(L) == [[IntToString(L[0])]];
    }
  }

  /** A run is the interval from its first to its last element. */
  lemma {:induction false} IntervalOfRun(r: seq<int>)
    requires IsRun(r)
    ensures Last(r) == r[0] + |r| - 1
    ensures Interval(r[0], Last(r)) == r
    decreases |r|
  {
    if |r| > 1 {
      var tail := r[1..];
      assert IsRun(tail) by {
        forall j | 0 <= j < |tail| ensures tail[j] == tail[0] + j {
          assert tail[j] == r[j + 1] && tail[0] == r[1];
        }
      }
      IntervalOfRun(tail);
      assert Last(tail) == Last(r);
      assert r == [r[0]] + tail;
    }
  }

  /** A run's token reads back as the run itself. */
  lemma RunTokenRoundTrip(r: seq<int>)
    requires IsRun(r) && NonNegative(r)
    ensures ParseToken(Join("-", RunEnds(r))) == Some(r)
  {
    var first, last := NatToString(r[0]), NatToString(Last(r));
    ParseNatToString(r[0]);
    ParseNatToString(Last(r));
    if |r| == 1 {
      assert Join("-", RunEnds(r)) == first;
      SplitWithout(first, '-');
      assert r == [r[0]];
    } else {
      assert RunEnds(r) == [first, last];
      SplitJoin([first, last], '-');
      IntervalOfRun(r);
    }
  }

  /** Reading the tokens of a sequence of runs gives back their concatenation. */
  lemma {:induction false} DecodeRuns(runs: seq<seq<int>>)
    requires forall i :: 0 <= i < |runs| ==> |runs[i]| > 0 && IsRun(runs[i])
    requires NonNegative(Flatten(runs))
    ensures DecodeTokens(JoinEach("-", GroupsOf(runs))) == Some(Flatten(runs))
    decreases |runs|
  {
    if |runs| > 0 {
      var rest := runs[1..];
      var groups := GroupsOf(runs);
      assert groups[1..] == GroupsOf(rest);
      assert JoinEach("-", groups)[1..] == JoinEach("-", GroupsOf(rest));
      assert Flatten(runs) == runs[0] + Flatten(rest);
      assert NonNegative(runs[0]) by {
        forall k | 0 <= k < |runs[0]| ensures runs[0][k] >= 0 {
          assert Flatten(runs)[k] == runs[0][k];
        }
      }
      assert NonNegative(Flatten(rest)) by {
        forall k | 0 <= k < |Flatten(rest)| ensures Flatten(rest)[k] >= 0 {
          assert Flatten(runs)[|runs[0]| + k] == Flatten(rest)[k];
        }
      }
      DecodeRuns(rest);
      RunTokenRoundTrip(runs[0]);
    }
  }

  /** No token of a sequence of runs holds a space or a newline. */
  lemma {:induction false} TokensAvoid(runs: seq<seq<int>>, c: char)
    requires forall i :: 0 <= i < |runs| ==> |runs[i]| > 0
    requires c == ' ' || c == '\n'
    ensures forall i :: 0 <= i < |runs| ==> c !in JoinEach("-", GroupsOf(runs))[i]
    decreases |runs|
  {
    if |runs| > 0 {
      var rest := runs[1..];
      TokensAvoid(rest, c);
      var tokens := JoinEach("-", GroupsOf(runs));
      assert tokens[1..] == JoinEach("-", GroupsOf(rest));
      JoinAvoids("-", RunEnds(runs[0]), c);
      forall i | 0 <= i < |runs| ensures c !in tokens[i] {
        if i > 0 {
          assert tokens[i] == tokens[1..][i - 1];
        }
      }
    }
  }

  /** A range list holds no newline. */
  lemma RangeStringHasNoNewline(L: seq<int>)
    ensures '\n' !in RangeToString(L)
  {
    TokensAvoid(Runs(L), '\n');
    JoinAvoids(" ", Tokens(L), '\n');
  }

  /** The tokens of `range_to_string` hold no space, so splitting on spaces recovers them. */
  lemma SplitRangeString(L: seq<int>)
    requires |L| > 0
    ensures Split(RangeToString(L), ' ') == Tokens(L)
  {
    TokensAvoid(Runs(L), ' ');
    RunsSplit(L);
    FlattenFirst(L, Runs(L));
    SplitJoin(Tokens(L), ' ');
  }

  /**
   * Round trip: reading back `range_to_string(L)` gives `L` exactly, in
   * order, for any list of non-negative integers (sorted or not).
   */
  lemma RoundTrip(L: seq<int>)
    requires NonNegative(L)
    ensures Decode(RangeToString(L)) == Some(L)
  {
    if |L| > 0 {
      var runs := Runs(L);
      var tokens := Tokens(L);
      RunsSplit(L);
      FlattenFirst(L, runs);
      SplitRangeString(L);
      assert tokens[0] == Join("-", RunEnds(runs[0]));
      assert RangeToString(L) != "";
      DecodeRuns(runs);
    }
  }

  /**
   * The output has one space-separated token per maximal run: one for a
   * non-empty list with no gaps, plus one for every gap.
   */
  lemma TokenCount(L: seq<int>)
    requires |L| > 0
    ensures |Split(RangeToString(L), ' ')| == |Runs(L)| == 1 + Breaks(L)
  {
    SplitRangeString(L);
  }

  /** The runs are the only split of `L` into maximal runs of consecutive integers. */
  lemma {:induction false} RunsUnique(L: seq<int>, runs: seq<seq<int>>)
    requires IsRunSplit(L, runs)
    ensures runs == Runs(L)
    decreases |L|
  {
    if |runs| == 0 {
      assert L == [];
    } else {
      var head := runs[0];
      var rest := runs[1..];
      assert L == head + Flatten(rest);
      if |head| == 1 {
        assert L[1..] == Flatten(rest);
        assert IsRunSplit(L[1..], rest) by {
          forall i | 0 <= i < |rest| ensures IsRun(rest[i]) {
            assert rest[i] == runs[i + 1];
          }
        }
        RunsUnique(L[1..], rest);
        if |L| > 1 {
          FlattenFirst(L[1..], rest);
          assert runs[1] == rest[0];
        }
        assert head == [L[0]];
        assert runs == [head] + rest;
      } else {
        var shorter := [head[1..]] + rest;
        FlattenCons(head[1..], rest);
        assert L[1..] == head[1..] + Flatten(rest);
        assert IsRunSplit(L[1..], shorter) by {
          forall i | 0 <= i < |shorter| ensures IsRun(shorter[i]) {
            if i > 0 {
              assert shorter[i] == runs[i];
            }
          }
          assert shorter[1..] == runs[1..];
        }
        RunsUnique(L[1..], shorter);
        assert L[1] == L[0] + 1;
        assert [L[0]] + shorter[0] == head;
        assert shorter[1..] == rest;
        assert runs == [head] + rest;
      }
    }
  }

  /**
   * What `group_ranges` promises about its runs, position by position: within
   * a run each element is the previous plus 1, and the last element of a run
   * plus 1 is never the first element of the next.
   */
  lemma {:induction false} RunsShape(L: seq<int>)
    ensures forall i, j :: 0 <= i < |Runs(L)| && 0 <= j < |Runs(L)[i]| - 1 ==>
      Runs(L)[i][j + 1] == Runs(L)[i][j] + 1
    ensures forall i :: 0 <= i < |Runs(L)| - 1 ==> Last(Runs(L)[i]) + 1 != Runs(L)[i + 1][0]
  {
    var runs := Runs(L);
    RunsSplit(L);
    forall i, j | 0 <= i < |runs| && 0 <= j < |runs[i]| - 1 ensures runs[i][j + 1] == runs[i][j] + 1 {
      assert IsRun(runs[i]);
    }
    forall i | 0 <= i < |runs| - 1 ensures Last(runs[i]) + 1 != runs[i + 1][0] {
      MaximalAt(runs, i);
    }
  }

  lemma {:induction false} MaximalAt(runs: seq<seq<int>>, i: nat)
    requires Maximal(runs) && i < |runs| - 1
    ensures |runs[i]| > 0 && |runs[i + 1]| > 0 && Last(runs[i]) + 1 != runs[i + 1][0]
    decreases i
  {
    if i > 0 {
      MaximalAt(runs[1..], i - 1);
    }
  }
}
