/**
 * Structural balance of a signed graph over a given list of cycles: the ring of edges of a
 * cycle, its number of negative edges, and the split of the cycle list into unbalanced ("bad",
 * odd negative count) and balanced ("good", even negative count) cycles.
 */
module Balance {
  import opened Wrappers
  import opened Sequences
  import opened SignedGraph

  /** Python's `s[k]` for `-|s| <= k < |s|`: a negative index counts back from the end. */
  function PyIndex<T>(s: seq<T>, k: int): (x: T)
    requires -|s| <= k < |s|
  {
    if k < 0 then s[|s| + k] else s[k]
  }

  /**
   * The edge list after the loop over the cycle has handled its first `n` nodes. The loop's
   * `index` starts at -1, so node `j` is paired with `cycle[j - 1]` read the Python way.
   */
  function EdgesUpTo(cycle: Cycle, n: nat): (edges: seq<Edge>)
    requires n <= |cycle|
    ensures |edges| == n
    ensures n > 0 ==> edges[0] == (cycle[|cycle| - 1], cycle[0])
    ensures forall i :: 1 <= i < n ==> edges[i] == (cycle[i - 1], cycle[i])
  {
    if n == 0 then []
    else EdgesUpTo(cycle, n - 1) + [(PyIndex(cycle, n - 2), cycle[n - 1])]
  }

  /** The closing ring of edges of a cycle: (last, first) followed by each consecutive pair. */
  function EdgesFromCycle(cycle: Cycle): (edges: seq<Edge>)
    ensures |edges| == |cycle|
    ensures |cycle| > 0 ==> edges[0] == (cycle[|cycle| - 1], cycle[0])
    ensures forall i :: 1 <= i < |cycle| ==> edges[i] == (cycle[i - 1], cycle[i])
  {
    EdgesUpTo(cycle, |cycle|)
  }

  /** The ring the program builds is the reference ring rotated to start at its closing edge. */
  lemma RingIsRotatedWrapPairs(cycle: Cycle)
    requires |cycle| > 0
    ensures EdgesFromCycle(cycle) == Rotate(WrapPairs(cycle), |cycle| - 1)
  {
    var e := EdgesFromCycle(cycle);
    var r := Rotate(WrapPairs(cycle), |cycle| - 1);
    forall i | 0 <= i < |cycle|
      ensures e[i] == r[i]
    {
      RingEdgeIsRotatedPair(cycle, i);
    }
  }

  /** One position of the ring lemma above. */
  lemma RingEdgeIsRotatedPair(cycle: Cycle, i: nat)
    requires i < |cycle|
    ensures EdgesFromCycle(cycle)[i] == Rotate(WrapPairs(cycle), |cycle| - 1)[i]
  {
    var n := |cycle|;
    var w := WrapPairs(cycle);
    if i == 0 {
      assert w[n - 1] == (cycle[n - 1], cycle[0]);
    } else {
      assert w[i - 1] == (cycle[i - 1], cycle[i]);
    }
  }

  /**
   * The polarity loop over an edge list: each edge's polarity is looked up in the graph, which
   * fails (None) as soon as an edge is absent, and every "negative" label adds one.
   */
  function CountNegative(g: Graph, edges: seq<Edge>): (r: Option<nat>)
    ensures r.Some? <==> forall i :: 0 <= i < |edges| ==> edges[i] in g
    ensures r.Some? ==> r.value == NegCount(g, edges)
    decreases |edges|
  {
    if |edges| == 0 then Some(0)
    else
      var front := edges[..|edges| - 1];
      var e := edges[|edges| - 1];
      assert edges == front + [e];
      match CountNegative(g, front)
      case None => None
      case Some(n) =>
        if e !in g then None
        else
          NegCountConcat(g, front, [e]);
          Some(n + if IsNegative(g[e]) then 1 else 0)
  }

  /**
   * Number of negative edges of a cycle. It fails exactly when some wraparound pair is not an
   * edge of the graph, and otherwise counts the negative wraparound pairs, at most one per node.
   */
  function NumberOfNegativeEdges(g: Graph, cycle: Cycle): (r: Option<nat>)
    ensures r.Some? <==> HasRing(g, cycle)
    ensures r.Some? ==> r.value == NegCount(g, WrapPairs(cycle)) && r.value <= |cycle|
  {
    if |cycle| == 0 then Some(0)
    else
      RingIsRotatedWrapPairs(cycle);
      NegCountRotate(g, WrapPairs(cycle), |cycle| - 1);
      var r := CountNegative(g, EdgesFromCycle(cycle));
      assert r.Some? <==> HasRing(g, cycle) by {
        var w := WrapPairs(cycle);
        var e := EdgesFromCycle(cycle);
        var n := |cycle|;
        if r.Some? {
          forall i | 0 <= i < n ensures w[i] in g {
            if i == n - 1 { assert w[i] == e[0]; } else { assert w[i] == e[i + 1]; }
          }
        }
        if HasRing(g, cycle) {
          forall i | 0 <= i < n ensures e[i] in g {
            if i == 0 { assert e[i] == w[n - 1]; } else { assert e[i] == w[i - 1]; }
          }
        }
      }
      r
  }

  /** Rotating a cycle changes neither whether its negative count exists nor its value. */
  lemma RotationKeepsCount(g: Graph, cycle: Cycle, k: nat)
    requires k <= |cycle|
    ensures NumberOfNegativeEdges(g, Rotate(cycle, k)) == NumberOfNegativeEdges(g, cycle)
  {
    if k == |cycle| {
      assert Rotate(cycle, k) == cycle;
    } else {
      var rc := Rotate(cycle, k);
      WrapPairsRotate(cycle, k);
      NegCountRotate(g, WrapPairs(cycle), k);
      var w := WrapPairs(cycle);
      var n := |cycle|;
      assert HasRing(g, rc) <==> HasRing(g, cycle) by {
        var rw := WrapPairs(rc);
        if HasRing(g, cycle) {
          forall i | 0 <= i < n ensures rw[i] in g {
            if i < n - k { assert rw[i] == w[i + k]; } else { assert rw[i] == w[i + k - n]; }
          }
        }
        if HasRing(g, rc) {
          forall j | 0 <= j < n ensures w[j] in g {
            if j < k { assert w[j] == rw[j + n - k]; } else { assert w[j] == rw[j - k]; }
          }
        }
      }
    }
  }

  /** A cycle with an odd number of negative wraparound edges breaks structural balance. */
  predicate OddCycle(g: Graph, c: Cycle)
  {
    NegCount(g, WrapPairs(c)) % 2 != 0
  }

  /** The cycles of `cycles` whose oddness is `odd`, in their original order. */
  function WithParity(g: Graph, cycles: seq<Cycle>, odd: bool): (r: seq<Cycle>)
    ensures forall i :: 0 <= i < |r| ==> OddCycle(g, r[i]) == odd
    ensures IsSubsequence(r, cycles)
    decreases |cycles|
  {
    if |cycles| == 0 then []
    else if OddCycle(g, cycles[0]) == odd then [cycles[0]] + WithParity(g, cycles[1..], odd)
    else WithParity(g, cycles[1..], odd)
  }

  /** Filtering a list extended by one cycle extends the filtered list by that cycle or not at all. */
  lemma {:induction false} WithParitySnoc(g: Graph, cycles: seq<Cycle>, c: Cycle, odd: bool)
    ensures WithParity(g, cycles + [c], odd)
         == WithParity(g, cycles, odd) + (if OddCycle(g, c) == odd then [c] else [])
    decreases |cycles|
  {
    if |cycles| > 0 {
      assert (cycles + [c])[1..] == cycles[1..] + [c];
      WithParitySnoc(g, cycles[1..], c, odd);
    } else {
      assert cycles + [c] == [c];
    }
  }

  /** The two lists returned by `allCycles`: odd cycles first, even cycles second. */
  datatype Partition = Partition(bad: seq<Cycle>, good: seq<Cycle>)

  /**
   * The classification loop over the enumerated cycles: each cycle's negative count is computed
   * and the cycle is appended to `bad` when the count is odd and to `good` otherwise. A cycle
   * with a missing edge makes the whole call fail.
   */
  function AllCycles(g: Graph, cycles: seq<Cycle>): (r: Option<Partition>)
    ensures r.Some? <==> AllHaveRings(g, cycles)
    ensures r.Some? ==> r.value.bad == WithParity(g, cycles, true)
    ensures r.Some? ==> r.value.good == WithParity(g, cycles, false)
    decreases |cycles|
  {
    if |cycles| == 0 then Some(Partition([], []))
    else
      var front := cycles[..|cycles| - 1];
      var c := cycles[|cycles| - 1];
      AllHaveRingsSnoc(g, cycles);
      match AllCycles(g, front)
      case None => None
      case Some(p) =>
        match NumberOfNegativeEdges(g, c)
        case None => None
        case Some(n) =>
          assert cycles == front + [c];
          WithParitySnoc(g, front, c, true);
          WithParitySnoc(g, front, c, false);
          if n % 2 != 0 then Some(Partition(p.bad + [c], p.good))
          else Some(Partition(p.bad, p.good + [c]))
  }

  /** Every cycle of the list closes through edges of the graph. */
  predicate AllHaveRings(g: Graph, cycles: seq<Cycle>)
  {
    forall i :: 0 <= i < |cycles| ==> HasRing(g, cycles[i])
  }

  /** A non-empty list has all rings exactly when its front does and its last cycle does. */
  lemma AllHaveRingsSnoc(g: Graph, cycles: seq<Cycle>)
    requires |cycles| > 0
    ensures AllHaveRings(g, cycles)
        <==> AllHaveRings(g, cycles[..|cycles| - 1]) && HasRing(g, cycles[|cycles| - 1])
  {
    var front := cycles[..|cycles| - 1];
    assert forall i :: 0 <= i < |front| ==> front[i] == cycles[i];
  }

  /** The two parity classes together hold every cycle of the list exactly as often as it occurs. */
  lemma {:induction false} PartitionCovers(g: Graph, cycles: seq<Cycle>)
    ensures |WithParity(g, cycles, true)| + |WithParity(g, cycles, false)| == |cycles|
    ensures multiset(WithParity(g, cycles, true)) + multiset(WithParity(g, cycles, false))
         == multiset(cycles)
    decreases |cycles|
  {
    if |cycles| > 0 {
      PartitionCovers(g, cycles[1..]);
      assert cycles == [cycles[0]] + cycles[1..];
    }
  }

  /** A cycle is in the class of parity `odd` exactly when it is in the list and has that parity. */
  lemma {:induction false} PartitionMembership(g: Graph, cycles: seq<Cycle>, c: Cycle, odd: bool)
    ensures c in WithParity(g, cycles, odd) <==> c in cycles && OddCycle(g, c) == odd
    decreases |cycles|
  {
    if |cycles| > 0 {
      PartitionMembership(g, cycles[1..], c, odd);
      assert cycles == [cycles[0]] + cycles[1..];
    }
  }

  /** The unbalanced class is empty exactly when every cycle has an even negative count. */
  lemma BalancedIffAllEven(g: Graph, cycles: seq<Cycle>)
    ensures WithParity(g, cycles, true) == [] <==> forall i :: 0 <= i < |cycles| ==> !OddCycle(g, cycles[i])
  {
    if WithParity(g, cycles, true) != [] {
      var c := WithParity(g, cycles, true)[0];
      PartitionMembership(g, cycles, c, true);
    } else {
      forall i | 0 <= i < |cycles| ensures !OddCycle(g, cycles[i]) {
        PartitionMembership(g, cycles, cycles[i], true);
      }
    }
  }

  /** What `isItBalanced` returns and reports: the partition, the cycle total and the verdict. */
  datatype Verdict = Verdict(partition: Partition, total: nat, balanced: bool)

  /**
   * The balance check: the partition is returned unchanged, the total is the sum of the two
   * class sizes, and the graph is reported balanced exactly when the unbalanced class is empty.
   */
  function IsItBalanced(g: Graph, cycles: seq<Cycle>): (r: Option<Verdict>)
    ensures r.Some? <==> forall i :: 0 <= i < |cycles| ==> HasRing(g, cycles[i])
    ensures r.Some? ==> r.value.total == |cycles|
    ensures r.Some? ==> (r.value.balanced <==> forall i :: 0 <= i < |cycles| ==> !OddCycle(g, cycles[i]))
    ensures r.Some? ==> r.value.partition.bad == WithParity(g, cycles, true)
    ensures r.Some? ==> r.value.partition.good == WithParity(g, cycles, false)
  {
    match AllCycles(g, cycles)
    case None => None
    case Some(p) =>
      PartitionCovers(g, cycles);
      BalancedIffAllEven(g, cycles);
      Some(Verdict(p, |p.bad| + |p.good|, p.bad == []))
  }
}
