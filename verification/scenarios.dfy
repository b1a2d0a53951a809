/** Small worked graphs: a triangle of alliances with one rivalry, the all-allied triangle, and a chain. */
module Scenarios {
  import opened Wrappers
  import opened SignedGraph
  import opened Balance
  import opened Volatility

  /** A -> B and B -> C are alliances; C -> A is `closing`. */
  function Triangle(closing: Polarity): Graph
  {
    map[("A", "B") := "positive", ("B", "C") := "positive", ("C", "A") := closing]
  }

  /** The wraparound ring of the triangle A, B, C. */
  lemma TriangleRing(closing: Polarity)
    ensures WrapPairs(["A", "B", "C"]) == [("A", "B"), ("B", "C"), ("C", "A")]
    ensures HasRing(Triangle(closing), ["A", "B", "C"])
    ensures NegCount(Triangle(closing), WrapPairs(["A", "B", "C"])) == if IsNegative(closing) then 1 else 0
  {
    var w := WrapPairs(["A", "B", "C"]);
    assert w == [("A", "B"), ("B", "C"), ("C", "A")];
    var g := Triangle(closing);
    var k := if IsNegative(closing) then 1 else 0;
    assert w[1..][1..][1..] == [];
    assert w[1..][1..] == [("C", "A")];
    assert NegCount(g, w[1..][1..]) == k;
    assert w[1..] == [("B", "C"), ("C", "A")];
    assert NegCount(g, w[1..]) == k;
  }

  /** One rivalry on the triangle makes its only cycle unbalanced. */
  lemma TriangleWithOneRivalry()
    ensures NumberOfNegativeEdges(Triangle("negative"), ["A", "B", "C"]) == Some(1)
    ensures AllCycles(Triangle("negative"), [["A", "B", "C"]]) == Some(Partition([["A", "B", "C"]], []))
  {
    var c: Cycle := ["A", "B", "C"];
    var g := Triangle("negative");
    TriangleRing("negative");
    assert [c][1..] == [];
    assert WithParity(g, [c], true) == [c];
    assert WithParity(g, [c], false) == [];
    assert AllHaveRings(g, [c]);
  }

  /** With every edge an alliance the cycle is balanced. */
  lemma TriangleOfAllies()
    ensures NumberOfNegativeEdges(Triangle("positive"), ["A", "B", "C"]) == Some(0)
    ensures AllCycles(Triangle("positive"), [["A", "B", "C"]]) == Some(Partition([], [["A", "B", "C"]]))
  {
    var c: Cycle := ["A", "B", "C"];
    var g := Triangle("positive");
    TriangleRing("positive");
    assert [c][1..] == [];
    assert WithParity(g, [c], true) == [];
    assert WithParity(g, [c], false) == [c];
    assert AllHaveRings(g, [c]);
  }

  /** Every node of the one cycle scores 1 when the cycle is unbalanced and -1 when it is balanced. */
  lemma TriangleScores(x: Node)
    requires x in ["A", "B", "C"]
    ensures Score([["A", "B", "C"]], [], x) == 1
    ensures Score([], [["A", "B", "C"]], x) == -1
  {
    var c: Cycle := ["A", "B", "C"];
    assert multiset(c)[x] == 1;
    assert [c][..0] == [];
  }

  /** A cycle that repeats a node counts it once per occurrence, not once per cycle. */
  lemma RepeatedNodeCountsTwice()
    ensures Occurrences([["A", "A"]], "A") == 2
    ensures Containing([["A", "A"]], "A") == 1
  {
    assert [["A", "A"]][..0] == [];
    assert multiset(["A", "A"])["A"] == 2;
  }

  /** The chain A -> B -> C, all alliances. */
  function Chain(): Graph
  {
    map[("A", "B") := "positive", ("B", "C") := "positive"]
  }

  /** No non-empty node sequence closes into a ring of the chain, so it has no cycle. */
  lemma ChainIsAcyclic(c: Cycle)
    requires |c| > 0
    ensures !HasRing(Chain(), c)
  {
    var g := Chain();
    var n := |c|;
    var w := WrapPairs(c);
    var j := if 1 < n then 1 else 0;
    if c[0] != "B" {
      if c[0] == "A" {
        assert w[n - 1] == (c[n - 1], "A") && w[n - 1] !in g;
      } else {
        assert w[0] !in g;
      }
    } else if c[j] != "C" {
      assert w[0] == ("B", c[j]) && w[0] !in g;
    } else {
      assert w[j].0 == "C" && w[j] !in g;
    }
  }

  /**
   * The chain has no cycle, so the enumerated list is empty: nothing is unbalanced, the graph is
   * reported balanced, every node scores 0, and the first node is the first maximum.
   */
  lemma AcyclicChain(x: Node)
    ensures IsItBalanced(Chain(), []) == Some(Verdict(Partition([], []), 0, true))
    ensures Score([], [], x) == 0
    ensures IsFirstArgMax([Score([], [], "A"), Score([], [], "B"), Score([], [], "C")], 0)
  {
    AbsentNodeScoresZero([], [], "A");
    AbsentNodeScoresZero([], [], "B");
    AbsentNodeScoresZero([], [], "C");
  }

  /** A list naming a pair that is not an edge makes the classification fail. */
  lemma ChainHasNoRing()
    ensures AllCycles(map[("A", "B") := "positive", ("B", "C") := "positive"], [["A", "B", "C"]]).None?
  {
    var c: Cycle := ["A", "B", "C"];
    assert WrapPairs(c)[2] == ("C", "A");
  }
}
