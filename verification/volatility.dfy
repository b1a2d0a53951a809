/**
 * Volatility scoring of the nodes: a node's score is the number of its occurrences in
 * unbalanced cycles minus the number of its occurrences in balanced cycles, and the most
 * volatile node is the first one in the node list that reaches the maximum score.
 */
module Volatility {
  import opened Wrappers
  import opened Sequences
  import opened SignedGraph

  /** Total number of occurrences of `x` across a list of cycles. */
  function Occurrences(cycles: seq<Cycle>, x: Node): (n: nat)
    decreases |cycles|
  {
    if |cycles| == 0 then 0
    else Occurrences(cycles[..|cycles| - 1], x) + multiset(cycles[|cycles| - 1])[x]
  }

  /** The volatility score of a node: occurrences in bad cycles minus occurrences in good cycles. */
  function Score(bad: seq<Cycle>, good: seq<Cycle>, x: Node): (s: int)
  {
    Occurrences(bad, x) - Occurrences(good, x)
  }

  /** Number of cycles of the list that contain `x`, however often. */
  function Containing(cycles: seq<Cycle>, x: Node): (n: nat)
    decreases |cycles|
  {
    if |cycles| == 0 then 0
    else Containing(cycles[..|cycles| - 1], x) + if x in cycles[|cycles| - 1] then 1 else 0
  }

  /** In cycles that repeat no node, counting occurrences is counting the cycles containing the node. */
  lemma {:induction false} OccurrencesCountContainingCycles(cycles: seq<Cycle>, x: Node)
    requires forall i :: 0 <= i < |cycles| ==> Distinct(cycles[i])
    ensures Occurrences(cycles, x) == Containing(cycles, x)
    decreases |cycles|
  {
    if |cycles| > 0 {
      OccurrencesCountContainingCycles(cycles[..|cycles| - 1], x);
      DistinctOccursAtMostOnce(cycles[|cycles| - 1], x);
    }
  }

  /**
   * On simple cycles the score is the number of unbalanced cycles containing the node minus the
   * number of balanced cycles containing it.
   */
  lemma SimpleCycleScoreCountsCycles(g: Graph, bad: seq<Cycle>, good: seq<Cycle>, x: Node)
    requires forall i :: 0 <= i < |bad| ==> SimpleCycle(g, bad[i])
    requires forall i :: 0 <= i < |good| ==> SimpleCycle(g, good[i])
    ensures Score(bad, good, x) == Containing(bad, x) - Containing(good, x)
  {
    OccurrencesCountContainingCycles(bad, x);
    OccurrencesCountContainingCycles(good, x);
  }

  /** A node that appears in no cycle of the list has no occurrences in it. */
  lemma {:induction false} AbsentNodeNoOccurrences(cycles: seq<Cycle>, x: Node)
    requires forall i :: 0 <= i < |cycles| ==> x !in cycles[i]
    ensures Occurrences(cycles, x) == 0
    decreases |cycles|
  {
    if |cycles| > 0 {
      AbsentNodeNoOccurrences(cycles[..|cycles| - 1], x);
    }
  }

  /** A node of no cycle scores zero; in particular every score is zero when there are no cycles. */
  lemma AbsentNodeScoresZero(bad: seq<Cycle>, good: seq<Cycle>, x: Node)
    requires forall i :: 0 <= i < |bad| ==> x !in bad[i]
    requires forall i :: 0 <= i < |good| ==> x !in good[i]
    ensures Score(bad, good, x) == 0
  {
    AbsentNodeNoOccurrences(bad, x);
    AbsentNodeNoOccurrences(good, x);
  }

  /** In cycles that repeat no node, a node occurs at most once per cycle. */
  lemma {:induction false} OccurrencesAtMostCycles(cycles: seq<Cycle>, x: Node)
    requires forall i :: 0 <= i < |cycles| ==> Distinct(cycles[i])
    ensures Occurrences(cycles, x) <= |cycles|
    decreases |cycles|
  {
    if |cycles| > 0 {
      OccurrencesAtMostCycles(cycles[..|cycles| - 1], x);
      DistinctOccursAtMostOnce(cycles[|cycles| - 1], x);
    }
  }

  /** When no cycle repeats a node, a score lies between minus the good count and the bad count. */
  lemma ScoreBounds(bad: seq<Cycle>, good: seq<Cycle>, x: Node)
    requires forall i :: 0 <= i < |bad| ==> Distinct(bad[i])
    requires forall i :: 0 <= i < |good| ==> Distinct(good[i])
    ensures -|good| <= Score(bad, good, x) <= |bad|
  {
    OccurrencesAtMostCycles(bad, x);
    OccurrencesAtMostCycles(good, x);
  }

  /** The score bounds hold in particular when the lists hold simple cycles of a graph. */
  lemma SimpleCycleScoreBounds(g: Graph, bad: seq<Cycle>, good: seq<Cycle>, x: Node)
    requires forall i :: 0 <= i < |bad| ==> SimpleCycle(g, bad[i])
    requires forall i :: 0 <= i < |good| ==> SimpleCycle(g, good[i])
    ensures -|good| <= Score(bad, good, x) <= |bad|
  {
    ScoreBounds(bad, good, x);
  }

  /**
   * One of the two accumulation passes: for each cycle, for each node in it, every position of
   * the node list holding that node is incremented (`add`) or decremented (not `add`).
   */
  method Accumulate(freqs: seq<int>, cycles: seq<Cycle>, nodes: seq<Node>, add: bool)
    returns (out: seq<int>)
    requires |freqs| == |nodes|
    ensures |out| == |nodes|
    ensures forall i :: 0 <= i < |nodes| ==>
      out[i] == freqs[i] + (if add then Occurrences(cycles, nodes[i]) else -(Occurrences(cycles, nodes[i]) as int))
  {
    out := freqs;
    for k := 0 to |cycles|
      invariant |out| == |nodes|
      invariant forall j :: 0 <= j < |nodes| ==>
        out[j] == freqs[j] + (if add then Occurrences(cycles[..k], nodes[j]) else -(Occurrences(cycles[..k], nodes[j]) as int))
    {
      var cycle := cycles[k];
      for p := 0 to |cycle|
        invariant |out| == |nodes|
        invariant forall j :: 0 <= j < |nodes| ==>
          var seen: int := Occurrences(cycles[..k], nodes[j]) + multiset(cycle[..p])[nodes[j]];
          out[j] == freqs[j] + (if add then seen else -seen)
      {
        var node := cycle[p];
        for i := 0 to |nodes|
          invariant |out| == |nodes|
          invariant forall j :: 0 <= j < |nodes| ==>
            var seen: int := Occurrences(cycles[..k], nodes[j]) + multiset(cycle[..p])[nodes[j]]
                        + (if j < i && nodes[j] == node then 1 else 0);
            out[j] == freqs[j] + (if add then seen else -seen)
        {
          if node == nodes[i] {
            out := out[i := if add then out[i] + 1 else out[i] - 1];
          }
        }
        assert cycle[..p + 1] == cycle[..p] + [node];
      }
      assert cycle[..|cycle|] == cycle;
      assert cycles[..k + 1][..k] == cycles[..k];
    }
    assert cycles[..|cycles|] == cycles;
  }

  /** The score list: entry i is the score of `nodes[i]`; nodes outside the list are never counted. */
  method Scores(bad: seq<Cycle>, good: seq<Cycle>, nodes: seq<Node>) returns (scores: seq<int>)
    ensures |scores| == |nodes|
    ensures forall i :: 0 <= i < |nodes| ==> scores[i] == Score(bad, good, nodes[i])
  {
    scores := seq(|nodes|, _ => 0);
    scores := Accumulate(scores, bad, nodes, true);
    scores := Accumulate(scores, good, nodes, false);
  }

  /** The starting value of the running maximum; a score must exceed it to be chosen. */
  const Sentinel: int := -5000

  /** `k` is the first index of `s` holding its maximum value. */
  predicate IsFirstArgMax(s: seq<int>, k: nat)
  {
    && k < |s|
    && (forall j :: 0 <= j < |s| ==> s[j] <= s[k])
    && (forall j :: 0 <= j < k ==> s[j] < s[k])
  }

  /** At most one index is the first maximum, so the choice below is determined. */
  lemma FirstArgMaxUnique(s: seq<int>, k1: nat, k2: nat)
    requires IsFirstArgMax(s, k1) && IsFirstArgMax(s, k2)
    ensures k1 == k2
  {
    assert s[k1] == s[k2];
  }

  /**
   * The argmax scan with a strict comparison against a running maximum that starts at the
   * sentinel: if some score exceeds the sentinel, the first index reaching the maximum wins;
   * otherwise index 0 and the sentinel itself are kept.
   */
  method MostVolatile(scores: seq<int>) returns (maxIndex: nat, maxScore: int)
    ensures |scores| > 0 ==> maxIndex < |scores|
    ensures (exists j :: 0 <= j < |scores| && Sentinel < scores[j]) ==>
      IsFirstArgMax(scores, maxIndex) && maxScore == scores[maxIndex]
    ensures (forall j :: 0 <= j < |scores| ==> scores[j] <= Sentinel) ==>
      maxIndex == 0 && maxScore == Sentinel
  {
    maxScore := Sentinel;
    maxIndex := 0;
    for index := 0 to |scores|
      invariant maxScore >= Sentinel
      invariant forall j :: 0 <= j < index ==> scores[j] <= maxScore
      invariant maxScore == Sentinel ==> maxIndex == 0
      invariant maxScore != Sentinel ==>
        maxIndex < index && maxScore == scores[maxIndex] && forall j :: 0 <= j < maxIndex ==> scores[j] < maxScore
    {
      if maxScore < scores[index] {
        maxIndex := index;
        maxScore := scores[index];
      }
    }
  }

  /** The reported most volatile party: its position in the node list, its name and its score. */
  datatype Report = Report(index: nat, node: Node, score: int)

  /**
   * The whole scoring step. Reporting reads `nodes[maxIndex]`, which fails (None) on an empty
   * node list; otherwise the reported node is the first one reaching the maximum score, as long
   * as that maximum exceeds the sentinel.
   */
  method Culprits(bad: seq<Cycle>, good: seq<Cycle>, nodes: seq<Node>)
    returns (scores: seq<int>, report: Option<Report>)
    ensures |scores| == |nodes|
    ensures forall i :: 0 <= i < |nodes| ==> scores[i] == Score(bad, good, nodes[i])
    ensures report.None? <==> |nodes| == 0
    ensures report.Some? ==> report.value.index < |nodes| && report.value.node == nodes[report.value.index]
    ensures report.Some? && (exists j :: 0 <= j < |nodes| && Sentinel < scores[j]) ==>
      IsFirstArgMax(scores, report.value.index) && report.value.score == scores[report.value.index]
    ensures report.Some? && (forall j :: 0 <= j < |nodes| ==> scores[j] <= Sentinel) ==>
      report.value.index == 0 && report.value.score == Sentinel
  {
    scores := Scores(bad, good, nodes);
    var maxIndex, maxScore := MostVolatile(scores);
    if maxIndex < |nodes| {
      report := Some(Report(maxIndex, nodes[maxIndex], maxScore));
    } else {
      report := None;
    }
  }
}
