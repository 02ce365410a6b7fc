# plesser_utils — verified model of the list-building helpers

This project models, in Dafny, the three list-building routines of
`plesser_utils.py` from the-plesser-problem. That file works on graphs whose
node identifiers start with a role tag `e`, `w` or `b`; the `e` nodes are
drawn at eight fixed positions on a ring. The three routines:

- `get_pairs` lists every unordered pair of a list: for each index pair
  `i < j`, in index order, it appends `(min(a[i], a[j]), max(a[i], a[j]))`.
- `reverse_destination_order` copies a destination list and exchanges its
  entries at positions 1 and 2 in the copy.
- `draw_node_edges` turns an adjacency list (a list of `(node, destinations)`
  entries) into a node list and an edge list before handing both to the
  renderer. The model keeps the list-building loop and stops before the call
  to the renderer.

Everything lives in one module, `PlesserUtils` (`plesser_utils.dfy`), with one
section per routine. Each routine is a method with the source's loops or
in-place writes. Each method is proved against a specification function, and
lemmas state what the source promises about that function:

- `GetPairs` takes a `seq<int>` (an element type with `min`/`max`). Its
  nested `while` loops are proved equal to `Pairs(a)`. `PairIndex(n, i, j)` is
  the position of the tuple for the index pair `(i, j)`. The lemmas prove
  four things: the length is `n * (n - 1) / 2`; the tuple at `PairIndex` is
  the `(min, max)` of `a[i]` and `a[j]`; every position belongs to some index
  pair; and positions follow the lexicographic order of index pairs in both
  directions.
- `ReverseDestinationOrder` takes an `array` and returns a fresh `array`, so
  that "the argument is not modified" means something. Its contents are
  `SwapSecondAndThird` of the argument, and exchanging twice is the identity.
- `CollectNodesAndEdges` grows `nodes` and `edges` in the source's nested loop
  with the same membership tests. It is proved equal to
  `Distinct(Appearances(nodeEdges))` and `UndirectedEdges(Adjacencies(nodeEdges))`.
  The lemmas prove that the node list has no duplicates, holds exactly the
  identifiers the input mentions, and keeps them in order of first appearance.
  They also prove that every adjacency is covered in one direction or the
  other, that every edge is an input adjacency, and that no edge is ever
  stored in both directions.

Node identifiers are `string`s. Edges are `(string, string)` tuples.

The repository's canonical traversal hasher is not in plesser_utils.py and is not modelled.

The name `reverse_destination_order` suggests a reversal. The code exchanges
positions 1 and 2 only. For a three-entry cyclic neighbour list this reverses
the cyclic orientation about the first entry. For longer lists it does not. The
model follows the code.

## Model

| member | source | states |
|---|---|---|
| `PlesserUtils.GetPairs` | plesser_utils.py:6-13 | the nested loops return exactly `Pairs(a)`: n·(n−1)/2 tuples, `(min(a[i],a[j]), max(a[i],a[j]))` at position `PairIndex(n,i,j)` for every i < j, and every position holds the tuple of the index pair assigned to it |
| `PlesserUtils.PairsLength` | plesser_utils.py:8-12 | the output has n·(n−1)/2 tuples for an input of length n |
| `PlesserUtils.PairsAt` | plesser_utils.py:8-12 | for every i < j the tuple at position `PairIndex(n,i,j)` is `(min, max)` of a[i] and a[j] |
| `PlesserUtils.PairsElements` | plesser_utils.py:9-12 | every tuple of the output is `(min, max)` of a[i] and a[j] for some i < j, and it sits at that pair's position |
| `PlesserUtils.PairIndexOrder` | plesser_utils.py:8-9 | the tuple for (i, j) comes before the tuple for (i2, j2) exactly when (i, j) is lexicographically smaller |
| `PlesserUtils.MinMaxOrdered` | plesser_utils.py:10-11 | each emitted tuple `(lo, hi)` has lo ≤ hi and consists of the two elements |
| `PlesserUtils.RowStartClosedForm` | plesser_utils.py:8-9 | the rows before row i hold i·(2n−i−1)/2 tuples |
| `PlesserUtils.SwapSecondAndThird` | plesser_utils.py:15-19 | the result has the input's length, r[1] = d[2], r[2] = d[1], and every other position is unchanged |
| `PlesserUtils.SwapSecondAndThirdInvolution` | plesser_utils.py:16-18 | applying the exchange twice gives back the original list |
| `PlesserUtils.ReverseDestinationOrder` | plesser_utils.py:15-19 | for a list of length ≥ 3, returns a fresh array holding `SwapSecondAndThird` of the argument; the argument is unchanged |
| `PlesserUtils.CollectNodesAndEdges` | plesser_utils.py:43-53 | the loop's `nodes` and `edges` are `Distinct(Appearances(..))` and `UndirectedEdges(Adjacencies(..))`, and they satisfy `NodeListSound` and `EdgeListSound` |
| `PlesserUtils.NodeEdgeListsSound` | plesser_utils.py:44-53 | nodes: no duplicates, exactly the mentioned identifiers, first-appearance order; edges: each adjacency is present in one direction or the other, each edge is an adjacency, and no edge is stored both ways |
| `PlesserUtils.DistinctMembers` | plesser_utils.py:47-51 | the node list never holds a duplicate and holds exactly the identifiers met |
| `PlesserUtils.DistinctFirstAppearanceOrder` | plesser_utils.py:47-51 | identifiers appear in the node list in the order of their first occurrence in the walk |
| `PlesserUtils.AppearancesMembers` | plesser_utils.py:46-51 | an identifier is met in the walk exactly when it is some entry's node or one of its destinations |
| `PlesserUtils.AdjacenciesMembers` | plesser_utils.py:46-49 | a `(node, destination)` pair is proposed exactly when destination is in node's list |
| `PlesserUtils.AddEdgeKeepsOneDirection` | plesser_utils.py:52-53 | after one reverse-direction test, the proposed edge or its reverse is present, nothing else is added, and "no edge in both directions" is preserved |
| `PlesserUtils.UndirectedEdgesProperties` | plesser_utils.py:49-53 | every edge is a proposed adjacency, every adjacency is present in one direction or the other, and no edge is stored both ways |
| `PlesserUtils.UndirectedEdgesKeepsRepeats` | plesser_utils.py:52-53 | for every input and every edge (x, y) with x ≠ y whose reverse (y, x) is never proposed, the edge list holds (x, y) exactly as many times as it was proposed, because only the reverse tuple is tested |

## Left out

- `draw_graph` (plesser_utils.py:21-41) and the call to it at plesser_utils.py:54 are left out. They render through networkx and matplotlib, which are foreign library calls. They also use floating-point trigonometry for the ring positions and a spring-layout solver.
- The colour mapping at plesser_utils.py:27 is left out, because it only affects presentation.
- The canonical traversal hasher and its string hash are not part of this model, because no modelled file contains their code. Python's built-in string hash is also not stable between runs.
- `get_pairs` is modelled on `int` elements. Python's `min`/`max` over other comparable types are not modelled.
- `reverse_destination_order` on a list shorter than 3 raises `IndexError` in Python. The model requires a length of at least 3 and does not model the exception.
- The edge list can hold repeated same-direction edges. The model reproduces this and does not claim there are no duplicates.
