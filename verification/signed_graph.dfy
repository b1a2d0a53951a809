/**
 * The signed, directed graph the analysis runs on: every ordered pair of nodes that is an
 * edge carries a polarity label, and a cycle is a sequence of nodes closed back to its start.
 */
module SignedGraph {
  import opened Sequences

  type Node = string
  type Edge = (Node, Node)

  /** The `polarity` attribute of an edge; the program writes "positive" or "negative". */
  type Polarity = string

  /** Directed edges and their polarity; an ordered pair has at most one polarity. */
  type Graph = map<Edge, Polarity>

  /** A cycle v0, v1, ..., v(k-1), closed by the edge v(k-1) -> v0. */
  type Cycle = seq<Node>

  /** Only the exact label "negative" is negative; any other label counts as not negative. */
  predicate IsNegative(p: Polarity)
  {
    p == "negative"
  }

  /** The reference ring of a cycle: pair i joins node i to node i + 1, wrapping to node 0. */
  function WrapPairs(c: Cycle): (r: seq<Edge>)
    ensures |r| == |c|
  {
    seq(|c|, i requires 0 <= i < |c| => (c[i], c[if i + 1 < |c| then i + 1 else 0]))
  }

  /** Every wraparound pair of the cycle is an edge of the graph. */
  predicate HasRing(g: Graph, c: Cycle)
  {
    forall i :: 0 <= i < |c| ==> WrapPairs(c)[i] in g
  }

  /** A simple cycle of `g`: at least one node, no repeated node, and every wraparound pair is an edge. */
  predicate SimpleCycle(g: Graph, c: Cycle)
  {
    |c| > 0 && Distinct(c) && HasRing(g, c)
  }

  /** Number of edges in `edges` that are in `g` with a negative polarity. */
  function NegCount(g: Graph, edges: seq<Edge>): (n: nat)
    ensures n <= |edges|
  {
    if |edges| == 0 then 0
    else (if edges[0] in g && IsNegative(g[edges[0]]) then 1 else 0) + NegCount(g, edges[1..])
  }

  /** The negative count of a concatenation is the sum of the counts. */
  lemma {:induction false} NegCountConcat(g: Graph, a: seq<Edge>, b: seq<Edge>)
    ensures NegCount(g, a + b) == NegCount(g, a) + NegCount(g, b)
    decreases |a|
  {
    if |a| == 0 {
      assert a + b == b;
    } else {
      assert (a + b)[1..] == a[1..] + b;
      NegCountConcat(g, a[1..], b);
    }
  }

  /** Rotating a list of edges does not change how many of them are negative. */
  lemma NegCountRotate(g: Graph, s: seq<Edge>, k: nat)
    requires k <= |s|
    ensures NegCount(g, Rotate(s, k)) == NegCount(g, s)
  {
    assert s == s[..k] + s[k..];
    NegCountConcat(g, s[..k], s[k..]);
    NegCountConcat(g, s[k..], s[..k]);
  }

  /** Rotating a cycle rotates its ring of wraparound pairs by the same amount. */
  lemma WrapPairsRotate(c: Cycle, k: nat)
    requires k < |c|
    ensures WrapPairs(Rotate(c, k)) == Rotate(WrapPairs(c), k)
  {
    var n := |c|;
    var r := Rotate(c, k);
    var lhs := WrapPairs(r);
    var rhs := Rotate(WrapPairs(c), k);
    forall i | 0 <= i < n
      ensures lhs[i] == rhs[i]
    {
      var j := if i < n - k then i + k else i + k - n;
      assert r[i] == c[j];
      assert rhs[i] == WrapPairs(c)[j];
      var ni := if i + 1 < n then i + 1 else 0;
      var nj := if j + 1 < n then j + 1 else 0;
      assert r[ni] == c[nj];
    }
  }
}
