# Structural balance of a signed graph — Dafny model

This project models the analysis core of `middle_east.py`, a script that checks a signed political
graph for structural balance. Each directed edge carries a polarity label, "positive" (alliance)
or "negative" (rivalry). The graph is structurally balanced when every cycle has an even number of
negative edges.

The script enumerates the cycles of the graph with a library call. The model takes that cycle list
as an input, and covers everything the script does with it:

- **The ring of a cycle** (`getEdgesFromCycle`). The edge list is `(last, first)` followed by
  each consecutive pair. It is built with Python's negative index `cycle[-1]`, which the model
  writes out as `PyIndex`.
- **Negative-edge count** (`numberOfNegativeEdges`). Each ring edge's polarity is looked up in
  the graph and compared with the string "negative". A lookup of a pair that is not an edge
  raises in Python; in the model it returns `None`.
- **Partition** (`allCycles`). Cycles with an odd count are appended to `bad` and the rest to
  `good`, in list order. A cycle with a missing edge makes the whole call fail.
- **Balance verdict** (`isItBalanced`). The function returns only the pair `(counterexamples,
  okcycles)` from `allCycles`, unchanged. The model's `Verdict` carries that pair plus the two
  values the function prints: the cycle total (line 65) and whether the graph is structurally
  balanced, which holds exactly when `bad` is empty (lines 67-71).
- **Volatility** (`culprits`). The score at position `i` of the node list is the number of
  occurrences of `node_list[i]` in bad cycles minus its occurrences in good cycles. The reported
  node is chosen by a strict-`<` scan whose running maximum starts at -5000.

Each operation has an independent reference to compare against:

- The ring is related to `WrapPairs`. That is the textbook ring, where pair `i` joins node `i` to
  node `i+1 mod k`. The program's ring is `WrapPairs` rotated by `k-1`.
- Counts are stated through `NegCount`.
- The partition is stated through the order-preserving filter `WithParity`.
- Scores are stated through `Occurrences`, which counts via multisets.
- The chosen node is stated through `IsFirstArgMax`.

Modules: `Wrappers` (Option), `Sequences` (rotation, subsequence, distinctness), `SignedGraph`
(nodes, edges, graph, reference ring and count), `Balance`, `Volatility`, `Scenarios`
(worked triangles and an acyclic chain).

Modelling choices that follow the code:

- Polarity is the string label the code compares with "negative" (middle_east.py:141), so any
  other label counts as not negative.
- A polarity lookup of a pair that is not an edge raises `KeyError` (middle_east.py:140). The
  model returns the `None` of an Option.
- Scores are kept per position of the node list (middle_east.py:90-100). A name listed twice
  gets the same score at both positions.
- A score counts occurrences of the node in cycles (middle_east.py:91-100), whereas the
  docstring of `culprits` (middle_east.py:86-88) speaks of the number of cycles containing it.
  The two agree on simple cycles (`Volatility.SimpleCycleScoreCountsCycles`). They differ on a
  cycle that repeats a node: `["A", "A"]` gives 2 occurrences of A but 1 containing cycle.
- The argmax starts its running maximum at -5000 (middle_east.py:103). If no score exceeds
  -5000, the reported index is 0 and the reported score is -5000, which need not be node 0's
  score.

## Model

| member | source | states |
|---|---|---|
| Balance.EdgesUpTo | middle_east.py:149-154 | after the loop has handled n nodes, the list has n edges; edge 0 is (last, first) and edge i ≥ 1 is (cycle[i-1], cycle[i]) |
| Balance.EdgesFromCycle | middle_east.py:146-155 | exactly len(cycle) edges: edge 0 is (cycle[-1], cycle[0]), edge i ≥ 1 is (cycle[i-1], cycle[i]); an empty cycle gives no edges |
| Balance.RingIsRotatedWrapPairs | middle_east.py:150-154 | the ring the loop builds is the reference wraparound ring (node i to node i+1 mod k) rotated to start at its closing edge |
| Balance.CountNegative | middle_east.py:137-143 | the polarity loop fails exactly when some edge of the list is not in the graph, and otherwise returns the number of edges labelled "negative" |
| Balance.NumberOfNegativeEdges | middle_east.py:134-143 | fails exactly when some wraparound pair of the cycle is not an edge; otherwise equals the number of negative wraparound pairs and lies in 0..len(cycle) |
| Balance.RotationKeepsCount | middle_east.py:140-154 | rotating a cycle changes neither whether its count exists nor the count |
| Balance.WithParity | middle_east.py:125-130 | the cycles of one parity class all have that parity and appear in their original relative order |
| Balance.AllCycles | middle_east.py:116-131 | fails exactly when some cycle has a missing edge; otherwise bad is the ordered list of odd-count cycles and good the ordered list of even-count cycles |
| Balance.PartitionCovers | middle_east.py:125-131 | len(bad) + len(good) == len(cycles), and bad and good together hold every cycle as often as it occurs in the input |
| Balance.PartitionMembership | middle_east.py:125-130 | a cycle is in bad exactly when it is in the input with an odd count, and in good exactly when it is in the input with an even count, so it is in exactly one class |
| Balance.BalancedIffAllEven | middle_east.py:67-68 | bad is empty exactly when every cycle has an even number of negative edges |
| Balance.IsItBalanced | middle_east.py:56-81 | returns the partition of allCycles unchanged, a total equal to the number of cycles, and "balanced" exactly when every cycle is even |
| Volatility.Accumulate | middle_east.py:91-100 | one accumulation pass adds (or subtracts) at position i the number of occurrences of node_list[i] across the given cycles |
| Volatility.Scores | middle_east.py:90-100 | the score list has len(node_list) entries; entry i is occurrences of node_list[i] in bad cycles minus occurrences in good cycles |
| Volatility.AbsentNodeScoresZero | middle_east.py:90-100 | a node that occurs in no cycle scores 0; with no cycles every score is 0 |
| Volatility.ScoreBounds | middle_east.py:90-100 | when no cycle repeats a node, every score lies in [-len(good), len(bad)] |
| Volatility.FirstArgMaxUnique | middle_east.py:108-111 | the first index that reaches the maximum is unique, so the chosen index is determined |
| Volatility.MostVolatile | middle_east.py:103-111 | if some score exceeds -5000, the chosen index is the smallest one reaching the maximum and the reported score is its score; otherwise index 0 and -5000 are kept |
| Volatility.Culprits | middle_east.py:84-113 | scores as above; reporting fails exactly when node_list is empty, and otherwise names node_list[index] for the first-maximum index under the same sentinel rule |
| Scenarios.TriangleRing | middle_east.py:134-143 | on the triangle A→B, B→C positive, the wraparound ring of A,B,C is (A,B),(B,C),(C,A) and it has one negative edge exactly when C→A is "negative" |
| Scenarios.TriangleWithOneRivalry | middle_east.py:125-143 | with C→A negative, the triangle has one negative edge and is classified bad |
| Scenarios.TriangleOfAllies | middle_east.py:125-143 | on the all-positive triangle, the cycle has no negative edge and is classified good |
| Scenarios.TriangleScores | middle_east.py:90-100 | every node of the single triangle scores 1 when the triangle is bad and -1 when it is good |
| Volatility.OccurrencesCountContainingCycles | middle_east.py:91-100 | when no cycle repeats a node, the occurrences the loops count equal the number of cycles containing the node |
| Volatility.SimpleCycleScoreCountsCycles | middle_east.py:84-100 | on lists of simple cycles, a score is the number of unbalanced cycles containing the node minus the number of balanced cycles containing it, as the docstring describes |
| Volatility.SimpleCycleScoreBounds | middle_east.py:90-100 | when every bad and good cycle is a simple cycle of the graph, every score lies in [-len(good), len(bad)] |
| Scenarios.ChainIsAcyclic | middle_east.py:137-140 | no non-empty node sequence closes into a ring of the chain A→B→C, so its cycle list is empty |
| Scenarios.RepeatedNodeCountsTwice | middle_east.py:91-95 | a cycle that repeats a node contributes once per occurrence (2 for ["A","A"]) although it is one containing cycle |
| Scenarios.AcyclicChain | middle_east.py:56-81 | with an empty cycle list, as for the chain, the partition is empty, the total is 0, the graph is reported balanced, every node scores 0 and the first node is the first maximum |
| Scenarios.ChainHasNoRing | middle_east.py:137-140 | classifying A,B,C over the chain A→B→C fails, because the closing pair (C, A) is not an edge |

## Left out

- Cycle enumeration (`net.simple_cycles`, middle_east.py:123). It is a library call whose source
  is not part of this model. The cycle list is an input. Whether self-loops count as cycles, and
  whether rotations are deduplicated, is therefore up to whoever supplies the list.
  `SimpleCycle` states what a simple cycle of the graph is; `Volatility.SimpleCycleScoreBounds`
  bounds the scores when the list holds only simple cycles.
- Graph construction (middle_east.py:4-32). This covers the hard-coded players and edge lists,
  the order in which `add_edges_from` overwrites polarities, and `to_directed`. The graph is a
  given map from ordered pairs to polarity labels, so an edge without a polarity attribute
  cannot be expressed.
- Console I/O: the text of every `print` (the values printed by `isItBalanced` at lines 65 and
  67-71 are in `Verdict`), every `input` prompt, and the module-level `main()` call
  (middle_east.py:157). `main` (middle_east.py:34-53) calls `culprits` only after an interactive
  answer, so that is left out too.
- The interactive counterexample loop of `isItBalanced` (middle_east.py:72-80). It is driven by
  user input, and it indexes past the end of the list if the user keeps answering "y".
- The printed score lines of `culprits` (middle_east.py:102, 105-107, 112-113). The values they
  print are in `Culprits`' results.
