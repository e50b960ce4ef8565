# Pynerve: a model of the topology kernels and proofs about them

Pynerve computes persistent homology of point clouds, Mapper graphs, and vector summaries of
persistence diagrams.  This project models the combinatorial core of those computations in Dafny and
proves what the core is for.  `dafny verify dfyconfig.toml` checks all of it.

**Reduction (Z2, Pairing, Ranks, LazyTermination, ColumnReduction).**  Three implementations reduce a 0/1
boundary matrix: one XORs already reduced columns in place, two XOR original columns into a working
set and never write the result back.  `Pairing` gives the reference: the pivot of column j is the
least lowest row that adding earlier columns can reach.  A matrix obtained by left-to-right additions
has distinct lowest rows if and only if its lowest rows are these pivots, so any two reductions agree.
`Ranks` says what the pivots mean: they count the ranks of all corners of the matrix.
`LazyTermination` gives the measure under which the lazy loop ends although its lowest row can rise
(`LowestRowCanRise` shows a step where it does), and `ColumnReduction` proves each loop against the
reference, with the lists of pairs read off it.

**The complex (Simplices, Buffers, Boundary, ChainComplex, Filtration, Pipeline).**  Clique
enumeration lists each dimension exactly, once, in lexicographic order.  Consecutive signed boundary
matrices multiply to zero; the mod 2 consequence gives clearing, and clearing gives that every simplex
is exactly one of killer, killed or essential, hence Betti numbers and Euler-Poincaré.  When rows
are no later than their own column, which holds for filtration values, the column values put every
birth before its death in every matrix if and only if they ascend.

**Graphs (Graph, UnionFind, Components, SingleLinkage, Forest, Kruskal, ElderRule, BettiZero,
DegreeZero, Thresholds).**
Union-find with path halving is one class with a ghost root vector; every client is proved against
walks in the edge graph.  Kruskal is proved minimum among all spanning forests of the input.  The
elder rule ties the two halves together: column j of the vertex-edge matrix stays nonzero exactly when
Kruskal accepts edge j, and its pivot is the larger of the two merged components' least vertices.
`BettiZero` concludes that the zeroth Betti number of an enumerated cloud is the number of components
of its threshold graph, and `DegreeZero` that the listed deaths count the components at every
threshold.  `Thresholds` does the same in every dimension: the deaths listed up to t are the ranks of
the complex at t, so one reduction gives the Betti numbers at all thresholds.

**Mapper and summaries (Dbscan, Cover, Diameter, Landscape, BettiCurve).** DBSCAN against density
reachability, with its labelling fully determined, both covers against interval membership, breadth-
first distances against shortest walks, landscape levels as order statistics with stability, the
Betti event sweep against the direct count.

**Graph files (GraphFile).**  The computational graph as a class whose operations keep its structure,
and the file printer and parser: loading succeeds exactly on readable files, and saving followed by
loading gives the same graph exactly when its tensors have the shape of their data.

Coordinates, weights and filtration values are `real`; a distance is an arbitrary function, with
symmetry or non-negativity assumed only where stated.  An argsort without a stability request is any
ascending permutation, so what is proved of it holds for each one.  Exceptions are values of `Result`.

Where the code does something its name or documentation would not tell:

- A lazy reduction step can raise the lowest row (`LazyTermination.LowestRowCanRise`).
- The sparse reduction does not sort its columns; for any column values that descend somewhere there
  is a matrix with rows no later than their column and a listed pair with birth > death
  (`Filtration.DescentReported`, `Filtration.BornFirstIffAscending`).
- The Betti sweep in C++ accepts bars with death < birth and then counts too little, exactly at the
  emitted times that lie inside such a bar (`BettiCurve.CountFallsShort`,
  `BettiCurve.ReversedBarCountsBelowZero`); a diagram is safe exactly when no merge group of its event
  times ends inside one (`BettiCurve.CurveExactIff`).
- The fallback interval of the n-dimensional cover is never taken in exact arithmetic
  (`Cover.FallbackUnused`).
- `addEdge` enters both nodes before it checks the gradient, so a rejected edge leaves them behind
  (`GraphFile.ComputationalGraph.AddEdge`).
- The data of a tensor can be resized after its construction; such a tensor is accepted by `addNode`
  and `saveGraph`, and `loadGraph` then rejects the file (`GraphFile.ResizedTensor`).  In real
  arithmetic that is the only way a round trip fails (`GraphFile.ReadableIffConsistent`).
- `loadGraph` accepts repeated node records and merges them, and ignores what follows the last edge
  (`GraphFile.LoadGraph`).

## Model

| member | source | states |
|---|---|---|
| Z2.LowOfXor | python/pynerve/_numba_reduction.py:27-34 | Adding two columns with the same lowest row lowers it; with different lowest rows the larger one stays. |
| Pairing.LowOfComb | python/pynerve/_numba_reduction.py:16-40 | The lowest row of any combination of columns with distinct lowest rows is the lowest row of one of them. |
| Pairing.SpanTransfer | python/pynerve/_numba_reduction.py:16-40 | Left-to-right additions keep the span: a combination of the first j original columns is one of the first j reduced columns. |
| Pairing.ReducedIsMinimal | python/pynerve/_numba_reduction.py:16-40 | A column of a reduction has the least lowest row among everything obtainable from it by adding earlier columns. |
| Pairing.ReducedIffMinimal | python/pynerve/_numba_reduction.py:16-40 | For every matrix obtained by left-to-right additions: nonzero lowest rows are distinct if and only if each lowest row is the pivot, that is minimal. |
| Pairing.Pivots | python/pynerve/_numba_reduction.py:40 | Every matrix has a pivot vector, whatever its columns: the reference for all three implementations. |
| Pairing.PairingUnique | python/pynerve/_numba_reduction.py:16-40 | Any two reductions of one matrix have the same lowest rows, whatever additions led to them. |
| Pairing.PivotVectorUnique | python/pynerve/_numba_reduction.py:40 | The pivot array is determined by the input matrix. |
| Pairing.PivotsInjective | python/pynerve/_numba_reduction.py:36-38 | A row is the pivot of at most one column. |
| Ranks.SpanMember | python/pynerve/_numba_reduction.py:27-28 | The span of a matrix holds exactly the sums of its columns, in whatever order they stand. |
| Ranks.SpanSnoc | python/pynerve/_numba_reduction.py:27-28 | One more column doubles the number of sums, or leaves it when it is one of them: the rank grows by at most one. |
| Ranks.PairsFrom | python/pynerve/_numba_reduction.py:36-38 | Column j has its pivot in row i or later exactly when its part from row i on is no sum of the parts of earlier columns. |
| Ranks.RankFormula | python/pynerve/_numba_reduction.py:16-40 | For all i and j the number of the first j columns with pivot in row i or later is the rank of those columns cut to rows i and on, that is, they have 2^rank sums. |
| Ranks.PairByRanks | python/pynerve/_numba_reduction.py:36-38 | Row i and column j are a pair exactly when the ranks of the four corners at (i, j) have alternating sum 1. |
| LazyTermination.BinaryDrops | python/pynerve/_numba_reduction.py:62-72 | Removing one index from a set of column indices, and changing only smaller ones, lowers the set read as a binary number. |
| LazyTermination.CoeffsLinear | python/pynerve/_numba_reduction.py:70 | The set of reduced columns in the decomposition of a working set is linear in it. |
| LazyTermination.CoeffsTop | python/pynerve/_numba_reduction.py:63-66 | If the lowest row of the working set is the pivot of column k, the reduced column k is in its decomposition. |
| LazyTermination.CoeffsOfOriginal | python/pynerve/_numba_reduction.py:66-68 | An original column decomposes into its own reduced column and earlier ones only. |
| LazyTermination.LazyStepDecreases | python/pynerve/_numba_reduction.py:62-72 | Each XOR with an original pivot column makes the decomposition, read as a binary number with later columns most significant, strictly smaller. |
| LazyTermination.LowestRowCanRise | python/pynerve/_numba_reduction.py:62-72 | A concrete step of the lazy loop in which the lowest row goes up, so the row itself is no termination measure. |
| ColumnReduction.LowestRow | python/pynerve/_numba_reduction.py:17-21 | The downward scan finds the largest row of the column, -1 for an empty one. |
| ColumnReduction.AddColumn | python/pynerve/_numba_reduction.py:24-28 | The in-place XOR turns column j into the symmetric difference and leaves all other columns alone. |
| ColumnReduction.ReduceColumn | python/pynerve/_numba_reduction.py:17-34 | The inner loop ends, on a member of the column's coset whose lowest row collides with no earlier one, touching no other column. |
| ColumnReduction.RecordPivot | python/pynerve/_numba_reduction.py:36-38 | Recording the pivot keeps both result arrays exact for one more column. |
| ColumnReduction.ReduceDense | python/pynerve/_numba_reduction.py:11-40 | The matrix is left as a reduction of its old value and the returned array holds its lowest rows, which are the pivots of the old matrix. |
| ColumnReduction.RowCount | python/pynerve/_numba_reduction.py:48-56 | The pivot table has a place for every row that occurs, and at least one. |
| ColumnReduction.LazyColumn | python/pynerve/_numba_reduction.py:59-72 | The lazy inner loop ends on a member of the column's coset whose lowest row is not taken. |
| ColumnReduction.ReduceSparse | python/pynerve/_numba_reduction.py:44-79 | For every input the returned array is the pivot vector of the matrix whose column j has exactly the rows stored in the first lengths[j] places. |
| ColumnReduction.LazyCscColumn | python/pynerve/_fast_boundary.py:53-63 | The same for the dictionary version over compressed columns. |
| ColumnReduction.ReduceCsc | python/pynerve/_fast_boundary.py:41-76 | The listed pairs are exactly the (pivot, column) pairs in column order; each birth is the row value or 0.0 when there is none, each death the column value or the birth when there is none. |
| ColumnReduction.AllReductionsAgree | python/pynerve/_numba_reduction.py:11-79 | On one matrix, given in three forms that are tied entry by entry, the three reductions produce the same pivots and the matching list of pairs. |
| Graph.OneMoreEdge | python/pynerve/_numba_graph.py:27-28 | Exactly which vertices one more edge connects. |
| Graph.MergeRetiresYounger | python/pynerve/_numba_graph.py:74-77 | Joining two components removes exactly the larger of their least vertices from the least vertices. |
| UnionFind.MergeRepresents | python/pynerve/_numba_graph.py:22-25 | Merging two classes along an edge keeps equal roots equivalent to being connected. |
| UnionFind.HalvingKeepsLinks | python/pynerve/_numba_graph.py:18 | A halving step keeps every vertex's root and the height bound that makes the search end. |
| UnionFind.LinkingKeepsLinks | python/pynerve/_numba_graph.py:24-25 | Linking one root below another merges exactly those two classes and keeps a height bound. |
| UnionFind.DisjointSets.constructor | python/pynerve/_numba_graph.py:14 | Every vertex starts as its own root. |
| UnionFind.DisjointSets.Find | python/pynerve/_numba_graph.py:16-20 | Path halving ends at the root of the start and changes no vertex's root. |
| UnionFind.DisjointSets.Link | python/pynerve/_numba_graph.py:77 | The Kruskal form: two different roots are linked, their classes become one. |
| UnionFind.DisjointSets.Union | python/pynerve/_numba_graph.py:22-25 | The classes of x and y become one, all others stay. |
| Components.UniteAll | python/pynerve/_fast_graph.py:26-42 | After all edges, two vertices have the same root exactly when the edges connect them. |
| Components.ConnectedComponents | python/pynerve/_numba_graph.py:11-41 | Labels are equal exactly for connected vertices, used labels are 0..c-1 in order of first occurrence, c is the number of components; a negative vertex count fails. |
| Components.LabelCount | python/pynerve/_numba_graph.py:30-39 | Any dense component labelling uses as many labels as there are components. |
| Components.Unique | python/pynerve/_fast_graph.py:54 | The values of the root array, each once, ascending. |
| Components.RootPositions | python/pynerve/_fast_graph.py:54-57 | Replacing roots by their position among the sorted unique roots gives dense labels with the same classes. |
| Components.ConnectedComponentsFast | python/pynerve/_fast_graph.py:45-57 | The labels agree on the ends of every given pair and are the finest that do, are dense, and are numbered in ascending order of the roots; fails exactly on a negative count or an edge index out of bounds, for every edge list. |
| SingleLinkage.ClosePrefix | src/algorithms/mapper_clustering.cpp:172-184 | Stopping at the first pair beyond the threshold has seen exactly the pairs within it. |
| SingleLinkage.UniteClose | src/algorithms/mapper_clustering.cpp:174-184 | The loop with early exit unites along exactly the prefix of pairs within the threshold. |
| SingleLinkage.Cluster | src/algorithms/mapper_clustering.cpp:121-193 | Labels are equal exactly for points connected in the threshold graph, and each label is the root left by uniting the pairs within the threshold in ascending tuple order. |
| Forest.GrowAcyclic | python/pynerve/_numba_graph.py:74-77 | An edge between two trees keeps a forest acyclic. |
| Forest.ForestSize | python/pynerve/_numba_graph.py:66 | A forest of k edges on n vertices has n - k components. |
| Forest.GreedySpans | python/pynerve/_numba_graph.py:69-77 | The accepted edges are acyclic and connect all that the edges seen so far connect. |
| Forest.GreedyCount | python/pynerve/_numba_graph.py:67-80 | Accepted edges and remaining components always add up to n. |
| Forest.GreedyIsLargest | python/pynerve/_numba_graph.py:69-77 | Among the first k edges no acyclic set is larger than the accepted one. |
| Forest.AheadIsLighter | python/pynerve/_numba_graph.py:55-56 | With ascending weights, being ahead in count at every prefix costs at most the lead times the heaviest weight so far. |
| Forest.GreedyIsLightest | python/pynerve/_fast_graph.py:83-97 | With edges ascending in weight, the accepted edges weigh no more than any spanning forest. |
| Kruskal.TryEdge | python/pynerve/_numba_graph.py:70-77 | An edge is accepted exactly when the edges before it do not connect its ends; the roots then describe one more edge. |
| Kruskal.GreedyComplete | python/pynerve/_numba_graph.py:79-80 | After n - 1 accepted edges no later edge is accepted, so the early stop loses nothing. |
| Kruskal.FillBuffer | python/pynerve/_numba_graph.py:58-82 | The buffer of n - 1 rows is never overrun and its filled part lists the accepted edges in order. |
| Kruskal.FillList | python/pynerve/_fast_graph.py:86-99 | The list version with its early stop holds the same edges. |
| Kruskal.AcceptedIsMinimum | python/pynerve/_fast_graph.py:82-99 | For every ascending order of the edges the accepted ones are a minimum spanning forest of the input. |
| Kruskal.MstKruskal | python/pynerve/_numba_graph.py:45-82 | The result is a minimum-weight spanning forest of the input graph, in ascending order of weight; n <= 1, negative n and mismatched lengths give what the code gives. |
| Kruskal.UpperPairs | python/pynerve/_fast_graph.py:73-75 | The default edge list is all pairs i < j, each once, in row order. |
| Kruskal.MinimumSpanningTreeFast | python/pynerve/_fast_graph.py:67-99 | A spanning forest of the given edges, or of the complete graph, in ascending order of distance, whose sum of distances is at most that of any spanning forest; fails exactly on edge indices out of bounds. |
| Kruskal.SumIsTotal | python/pynerve/_fast_graph.py:82 | The weight of a choice of edges is the sum of the distances between their ends. |
| ElderRule.WalkSum | python/pynerve/_numba_reduction.py:23-34 | A walk over earlier edges is a sum of their columns that leaves its two end points. |
| ElderRule.MeetsComponent | python/pynerve/_numba_reduction.py:23-34 | When edge j merges two components, no addition of earlier columns brings column j below the least vertex of either. |
| ElderRule.MergingPivot | python/pynerve/_numba_reduction.py:36-38 | The pivot of a merging edge is the larger of the two components' least vertices. |
| ElderRule.RedundantPivot | python/pynerve/_numba_reduction.py:23-38 | The column of an edge that closes a cycle reduces to nothing. |
| ElderRule.ElderRule | python/pynerve/_numba_reduction.py:11-40 | Column j ends nonzero exactly when Kruskal accepts edge j, with the elder rule for its pivot row. |
| ElderRule.PivotRowsAreRetired | python/pynerve/_numba_reduction.py:36-38 | After any number of columns the pivot rows are exactly the vertices that are not least in their component. |
| ElderRule.PivotsCountComponents | python/pynerve/_numba_graph.py:30-41 | Vertices minus pivots is the number of dense component labels, and pivots are as many as accepted edges. |
| BettiZero.EdgeMatrix | python/pynerve/_fast_boundary.py:15-36 | The dimension-1 boundary matrix of an enumerated complex is the vertex-edge matrix of its edge list. |
| BettiZero.EdgeGraph | python/pynerve/_fast_simplices.py:37-41 | The enumerated edges are the threshold graph that single linkage unites along. |
| BettiZero.BettiZeroIsComponents | python/pynerve/_numba_reduction.py:11-40 | The essential vertices of a reduced complex are as many as the components of its threshold graph. |
| BettiZero.BettiZeroIsLabels | python/pynerve/_numba_graph.py:30-41 | The zeroth Betti number equals the number of dense labels of the threshold graph. |
| DegreeZero.DeadByKillers | python/pynerve/_fast_boundary.py:65-74 | With ascending column values the deaths listed up to t are as many as the nonzero columns with value up to t. |
| DegreeZero.OrderedGraph | python/pynerve/_fast_filtration.py:35-39 | The edges of the complex with length up to t are the threshold graph at t. |
| DegreeZero.DeathsCountComponents | python/pynerve/_fast_boundary.py:41-76 | With edges in any ascending order, at every threshold t up to that of the complex, points minus listed deaths up to t is the number of components of the threshold graph at t. |
| Thresholds.SpanOfSet | python/pynerve/_numba_reduction.py:27-28 | The sums of columns depend only on which columns there are, not on their order or repetition. |
| Thresholds.RankRenumbered | python/pynerve/_numba_reduction.py:27-28 | Renumbering the rows keeps the rank. |
| Thresholds.KillersAreRank | python/pynerve/_numba_reduction.py:36-38 | The nonzero columns among the first k are as many as the rank of the first k columns. |
| Thresholds.SimplicesAt | python/pynerve/_fast_filtration.py:41-54 | The simplices with value up to t, a prefix of the filtration order, are the simplices of the complex at t. |
| Thresholds.MatrixPlaced | python/pynerve/_fast_boundary.py:15-36 | The boundary matrix at t has the rank of the same columns over the rows of the whole complex. |
| Thresholds.RankAtThreshold | python/pynerve/_fast_boundary.py:41-76 | In every dimension and at every threshold t up to that of the complex, the deaths listed up to t are the rank of the complex at t, for any ascending column order. |
| Thresholds.BettiAtThreshold | python/pynerve/_fast_boundary.py:41-76 | So one reduction gives the Betti numbers of the complexes at all thresholds: simplices at t minus deaths up to t in two dimensions. |
| Simplices.SortedLexUnique | python/pynerve/_fast_simplices.py:78-86 | A lexicographically ordered list of simplices is determined by its members. |
| Simplices.LevelUnique | python/pynerve/_fast_simplices.py:48-93 | There is only one exact list per dimension. |
| Simplices.VrEdges | python/pynerve/_fast_simplices.py:37-41 | The edge list holds exactly the pairs within the threshold, ascending. |
| Simplices.NextLevel | python/pynerve/_fast_simplices.py:73-86 | Extending by common neighbours above the largest vertex gives exactly the next dimension, once each, in order. |
| Simplices.EnumerateSimplices | python/pynerve/_fast_simplices.py:48-93 | Level d lists every (d+1)-clique once in lexicographic order, no level from 2 on is empty, and missing levels up to max_dim have no simplex; negative arguments fail. |
| Simplices.FacesEnumerated | python/pynerve/_fast_simplices.py:48-93 | The enumerated family is closed under faces. |
| Buffers.TupleListBound | python/pynerve/_numba_simplices.py:41 | A lexicographically ordered list of increasing k-tuples below n has at most n choose k entries. |
| Buffers.ChooseClosed | python/pynerve/_numba_simplices.py:17-41 | The buffer sizes n(n-1)/2 and n(n-1)(n-2)/6 are n choose 2 and n choose 3. |
| Buffers.VrEdgesBuffered | python/pynerve/_numba_simplices.py:11-33 | The edge buffer is never overrun and its filled part is the exact edge list; a negative threshold fails. |
| Buffers.FullIsComplete | python/pynerve/_numba_simplices.py:59-60 | Returning when the buffer is full returns every triangle. |
| Buffers.TriangleEnumeration | python/pynerve/_numba_simplices.py:37-62 | On the edge list of a threshold graph the result is the exact list of triangles. |
| Buffers.SameTriangles | python/pynerve/_numba_simplices.py:37-62 | The triangle kernel returns level 2 of the general enumeration, in the same order. |
| Boundary.SimplexBoundary | python/pynerve/_numba_simplices.py:66-79 | Row i of the boundary array is the simplex without vertex i. |
| Boundary.BoundaryEntries | python/pynerve/_fast_boundary.py:18-36 | For simplices with vertices in any order, summed as a sparse matrix, entry (r, c) adds the signs of the faces of column c that have the vertices of row r, the last such row taking them; fails exactly when a column has no vertex or one twice. |
| Boundary.BoundaryMatrices | python/pynerve/_fast_boundary.py:11-38 | One such matrix for each dimension from 1 to the smaller of max_dim and the top; fails exactly when one of these dimensions has a simplex without vertices or with one twice. |
| Boundary.KeyIff | python/pynerve/_fast_boundary.py:18-30 | Two simplices have the same sorted key exactly when they have the same vertices. |
| Boundary.IndexIsLast | python/pynerve/_fast_boundary.py:18-21 | The lookup finds exactly the last simplex with the key. |
| Boundary.IncreasingMatrix | python/pynerve/_fast_boundary.py:18-36 | Over distinct simplices with increasing vertices the entries are the signed incidence numbers. |
| Boundary.IncidenceUnit | python/pynerve/_fast_boundary.py:26-34 | An incidence number is -1, 0 or 1, nonzero exactly for a face. |
| Boundary.FaceSign | python/pynerve/_fast_boundary.py:29-33 | The face without vertex i has sign +1 for even i and -1 for odd i. |
| Boundary.BoundaryOfBoundary | python/pynerve/_fast_boundary.py:26-34 | Over the integers, with signs, consecutive boundary matrices multiply to zero, entry by entry. |
| Boundary.FacesHaveNoBoundary | python/pynerve/_fast_boundary.py:26-34 | Modulo 2 the boundaries of the faces of a simplex add up to nothing. |
| ChainComplex.VietorisRipsIsComplex | python/pynerve/_fast_boundary.py:11-38 | The boundary matrices of every enumerated complex form a chain complex. |
| ChainComplex.Clearing | python/pynerve/_numba_reduction.py:11-40 | A simplex that is a pivot row in dimension d+1 has a column that reduces to empty in dimension d. |
| ChainComplex.Trichotomy | python/pynerve/_numba_reduction.py:11-40 | Every simplex is exactly one of killer, killed and essential. |
| ChainComplex.KilledSize | python/pynerve/_numba_reduction.py:36-38 | As many simplices are killed as kill. |
| ChainComplex.BettiCount | python/pynerve/_numba_reduction.py:11-40 | The essential simplices of dimension d number n_d - r_d - r_(d+1). |
| ChainComplex.EulerPoincare | python/pynerve/_numba_reduction.py:11-40 | Simplex counts and Betti numbers have the same alternating sum. |
| Pipeline.CompressedColumns | python/pynerve/_fast_boundary.py:35-54 | The nonzero rows of the compressed signed matrix are the mod 2 boundary columns. |
| Pipeline.ReduceComplex | python/pynerve/_fast_boundary.py:11-76 | Building and reducing every dimension of an enumerated complex gives pivots of a chain complex and the pairs they determine. |
| Pipeline.PairsAccountForSimplices | python/pynerve/_fast_boundary.py:41-76 | In each dimension every simplex is the death of a listed pair, the birth of one a dimension up, or essential: the counts add up. |
| Filtration.LongestEdge | python/pynerve/_fast_filtration.py:46-54 | The nested maximum is the longest edge of the simplex. |
| Filtration.FiltrationValues | python/pynerve/_fast_filtration.py:27-58 | Every simplex of every dimension gets its longest edge, vertices 0. |
| Filtration.FaceIsShorter | python/pynerve/_fast_filtration.py:41-54 | A face is never longer than the simplex. |
| Filtration.SortFiltration | python/pynerve/_fast_filtration.py:11-24 | The stable ascending order, with simplices and values carried along; mismatched lengths fail. |
| Filtration.BirthBeforeDeath | python/pynerve/_fast_boundary.py:65-74 | With ascending column values and rows no later than their column, the pivot row of a column that has a value is no later than it. |
| Filtration.PairsOrdered | python/pynerve/_fast_boundary.py:65-76 | Then every listed pair has birth <= death, whether there are more columns or more values. |
| Filtration.VietorisRipsPairs | python/pynerve/_fast_filtration.py:27-58 | In a Vietoris-Rips filtration with columns in any ascending order every listed pair has birth <= death. |
| Filtration.InheritedPivot | python/pynerve/_fast_boundary.py:56-63 | A column can take over a late row from an earlier column that it collides with. |
| Filtration.DescentReported | python/pynerve/_fast_boundary.py:52-74 | Wherever column values descend, a concrete matrix and two row values for which the list has a pair with birth > death, although rows are no later than their column. |
| Filtration.BornFirstIffAscending | python/pynerve/_fast_boundary.py:52-74 | The column values put birth <= death in every listed pair, for every matrix of any size and all row values with rows no later than their own column, if and only if they ascend. |
| Dbscan.RegionQuery | src/algorithms/mapper_clustering.cpp:14-36 | The neighbours are exactly the other points within eps, ascending. |
| Dbscan.CoreIff | src/algorithms/mapper_clustering.cpp:56-68 | A point is a core point exactly when at least one and at least min_samples other points lie within eps. |
| Dbscan.Absorb | src/algorithms/mapper_clustering.cpp:99-110 | What absorbing a neighbour list does to labels, visited marks and queue. |
| Dbscan.ExpandCore | src/algorithms/mapper_clustering.cpp:95-111 | Expanding a core seed keeps the growing cluster consistent with density reachability. |
| Dbscan.GrowCluster | src/algorithms/mapper_clustering.cpp:74-114 | The worklist ends, and the new cluster is complete: older clusters, noise and the new id stay consistent. |
| Dbscan.OrderedGrows | src/algorithms/mapper_clustering.cpp:60-88 | A core point labelled now comes after a core point of every earlier cluster, so ids keep ascending with first core points. |
| Dbscan.BorderGrows | src/algorithms/mapper_clustering.cpp:99-104 | A border point labelled now is near no core point of an earlier cluster, so it gets the least label it can. |
| Dbscan.AllVisited | src/algorithms/mapper_clustering.cpp:60-117 | When every point is visited the outer invariant is the promised clustering. |
| Dbscan.Cluster | src/algorithms/mapper_clustering.cpp:39-118 | Core points share a label exactly when a chain of core points within eps joins them, a border point has the least label of a core point within eps, all else is -1, the ids are exactly 0..c-1, and they ascend with the first core point of their cluster. |
| Dbscan.ClusteringUnique | src/algorithms/mapper_clustering.cpp:53-117 | These properties determine the labelling: two clusterings of one setting are equal. |
| Cover.GridCovers | src/algorithms/mapper_cover.cpp:90-107 | Every value between minimum and maximum lies in some interval, for every resolution and overlap setting. |
| Cover.HoldsIff | src/algorithms/mapper_cover.cpp:72-107 | Interval membership in terms of minimum, maximum, resolution and overlap alone. |
| Cover.SharedBand | src/algorithms/mapper_cover.cpp:90-100 | Neighbouring intervals share exactly the band of the overlap around the wall between them. |
| Cover.GridSetsCover | src/algorithms/mapper_cover.cpp:95-117 | The listed non-empty interval sets together contain every point. |
| Cover.Build1d | src/algorithms/mapper_cover.cpp:64-120 | The cover covers every point and lists, in order, the non-empty sets of points whose value lies in one of the equal parts of the range, widened on both sides by the overlap clamped to 0..0.95; too few values give nothing. |
| Cover.FallbackUnused | src/algorithms/mapper_cover.cpp:206-221 | Within the range of the data the default interval is never needed. |
| Cover.Emit | src/algorithms/mapper_cover.cpp:226-239 | The recursive emission restores its key and appends the point to exactly the buckets whose key picks one membership in every dimension, once each. |
| Cover.CoverNext | src/algorithms/mapper_cover.cpp:174-240 | Emitting one more point keeps each bucket equal to the ascending list of points whose memberships match its key. |
| Cover.NoPointUncovered | src/algorithms/mapper_cover.cpp:171-248 | A point with a membership in every dimension is in some bucket. |
| Cover.KeysInOrder | src/algorithms/mapper_cover.cpp:242-247 | The buckets are read in lexicographic key order, each once. |
| Cover.BuildNd | src/algorithms/mapper_cover.cpp:123-249 | Entry by entry the cover is the ascending points of each matching key, keys ascend by their first difference, and a point is in bucket K exactly when in every dimension its value lies in the widened interval K_d between minimum and maximum, K_d being 0 where the range is not divided; every point is covered; one dimension gives the interval cover. |
| Cover.BucketsAreIntervals | src/algorithms/mapper_cover.cpp:171-248 | End to end, from values to buckets: a point is in bucket K exactly when its value lies in interval K_d of every divided dimension d, and K_d is 0 in the others. |
| Cover.SharedBuckets | src/algorithms/mapper_cover.cpp:155-204 | A point lies in both of two buckets one step apart in a divided dimension exactly when it lies in one of them and its value in the band of the overlap around the wall. |
| Diameter.BuildAdjacency | src/algorithms/mapper_core.cpp:23-35 | The lists hold both directions of exactly the edges in range. |
| Diameter.LevelsFit | src/algorithms/mapper_core.cpp:390-403 | With levels 0..d in use and a vertex beyond them there are more than d + 1 vertices. |
| Diameter.SentinelSafe | src/algorithms/mapper_core.cpp:401-403 | A distance assigned while some vertex is unreached is below n, so n is a safe mark for unreached. |
| Diameter.DistancesExact | src/algorithms/mapper_core.cpp:390-408 | When the queue is empty recorded distances are shortest walk lengths and unmarked vertices are unreachable. |
| Diameter.SearchFrom | src/algorithms/mapper_core.cpp:388-409 | One search raises the running maximum to the largest distance from its start. |
| Diameter.GraphDiameter | src/algorithms/mapper_core.cpp:365-411 | The result is the maximum shortest-path length over all connected pairs, and below the node count. |
| Landscape.TentFormsAgree | src/algorithms/persistence_vectorization.cpp:108-119 | The piecewise tent equals the midpoint-height form, and an empty bar has a zero tent. |
| Landscape.TentStable | src/algorithms/persistence_vectorization.cpp:108-119 | Moving both ends of a bar by at most e moves its tent by at most e. |
| Landscape.LevelUnique | src/algorithms/persistence_vectorization.cpp:139-146 | The k-th largest value, zero past the end, is unique. |
| Landscape.LevelsDecrease | src/algorithms/persistence_vectorization.cpp:124-149 | Levels do not increase in k. |
| Landscape.PickLevel | src/algorithms/persistence_vectorization.cpp:139-146 | Sorting descending and taking entry k, zero past the end, gives the k-th largest value. |
| Landscape.LevelOfPositive | src/algorithms/persistence_vectorization.cpp:134-137 | Dropping values that are not positive changes no level. |
| Landscape.LandscapeStability | src/algorithms/persistence_vectorization.cpp:108-149 | Moving every birth and death by at most e changes every level at every sample by at most e. |
| Landscape.ComputeLandscape | src/algorithms/persistence_vectorization.cpp:16-152 | Each row holds the k-th largest tent of the finite bars at evenly spaced samples from the earliest birth to the latest death; there are as many samples as the whole part of range over resolution, at least 100. |
| Landscape.PersistenceLandscapeFast | python/pynerve/_fast_representations.py:120-154 | The NumPy form gives the k-th largest tent, zero-padded, at evenly spaced points from the earliest birth to the latest death; which arguments fail and in which order. |
| Landscape.FormsAgree | python/pynerve/_fast_representations.py:142-154 | At any sample both forms have the same level: dropping zeros equals zero padding. |
| BettiCurve.NetIsAlive | src/algorithms/persistence_vectorization.cpp:257-267 | For any diagram, events up to x add up to the living bars minus the bars that died without being born. |
| BettiCurve.EmitAtGap | src/algorithms/persistence_vectorization.cpp:279-282 | At a gap wider than the tolerance the running count is exact and exactly that point is due. |
| BettiCurve.ComputeBettiCurve | src/algorithms/persistence_vectorization.cpp:252-288 | One point at the end of each merge group, x strictly increasing, count equal to living minus reversed bars, for every non-negative tolerance. |
| BettiCurve.CurveCountsLiving | python/pynerve/_fast_representations.py:114-115 | With births <= deaths every emitted count is the direct count of bars with birth <= x < death. |
| BettiCurve.CountFallsShort | src/algorithms/persistence_vectorization.cpp:270-285 | No count is too large, and one is too small exactly when its time lies inside a bar that dies before its birth. |
| BettiCurve.CurveExactIff | src/algorithms/persistence_vectorization.cpp:270-285 | For every tolerance all counts are right if and only if no merge group of the diagram's event times ends inside a bar that dies before its birth. |
| BettiCurve.ReversedBarCountsBelowZero | src/algorithms/persistence_vectorization.cpp:270-285 | For every tolerance below 1 the single bar with birth 2 and death 1 gives the count -1 at time 1, where nothing is alive. |
| BettiCurve.CurveExactIffBirthsFirst | src/algorithms/persistence_vectorization.cpp:270-285 | When different event times lie further apart than the tolerance: if and only if no bar dies before its birth. |
| GraphFile.FindNode | src/autodiff/autodiff_graph.cpp:39-49 | The first equal tensor, or the node count when there is none. |
| GraphFile.NumelConcat | src/autodiff/autodiff_tensor.cpp:409-425 | The element count is 0 without dimensions, the size of a single one, and multiplicative over a shape put together from two. |
| GraphFile.ComputationalGraph.EnsureNode | src/autodiff/autodiff_graph.cpp:51-60 | The node is there afterwards, never twice, for any tensor. |
| GraphFile.ComputationalGraph.AddNode | src/autodiff/autodiff_graph.cpp:77-80 | Adds the node at the end unless it is present, nothing else changes. |
| GraphFile.ComputationalGraph.AddEdge | src/autodiff/autodiff_graph.cpp:82-89 | For any tensors nodes stay distinct and edges in range; the edge is added exactly when the gradient has one value or as many as the source tensor, the nodes in either case. |
| GraphFile.ComputationalGraph.Clear | src/autodiff/autodiff_graph.cpp:91-96 | The graph is empty. |
| GraphFile.ComputationalGraph.Optimize | src/autodiff/autodiff_graph.cpp:184-218 | For any text key: nodes stay, the first edge of each key stays in order with its gradient, the structure stays valid. |
| GraphFile.WriteTensor | src/autodiff/autodiff_gradients.cpp:40-57 | Appends the tensor's record. |
| GraphFile.ReadTensor | src/autodiff/autodiff_gradients.cpp:59-85 | Reads a tensor exactly when the input starts with the record of a well-formed one, whole numbers serving as values too, and consumes just that record. |
| GraphFile.SaveGraph | src/autodiff/autodiff_gradients.cpp:166-199 | Saving a graph never meets a missing node and writes its tokens, from the format name on, whether or not its tensors still have the shape of their data. |
| GraphFile.ReadNodes | src/autodiff/autodiff_gradients.cpp:219-226 | Fails exactly when the input does not start with that many tensor records; else the graph holds them without repetition. |
| GraphFile.ReadRecord | src/autodiff/autodiff_gradients.cpp:235-242 | Reads an edge exactly when its indices are in range and a tensor record follows. |
| GraphFile.ReadEdges | src/autodiff/autodiff_gradients.cpp:233-243 | Fails exactly when there are not that many fitting edge records; else the graph gains them in order. |
| GraphFile.DescriptionUnique | src/autodiff/autodiff_gradients.cpp:201-245 | A file describes at most one list of nodes and one list of edges. |
| GraphFile.LoadGraph | src/autodiff/autodiff_gradients.cpp:201-245 | Succeeds exactly on the readable files, with the graph they describe. |
| GraphFile.SavedDescribes | src/autodiff/autodiff_gradients.cpp:181-198 | The tokens of a graph whose tensors have the shape of their data describe that graph. |
| GraphFile.ReadableIffConsistent | src/autodiff/autodiff_gradients.cpp:166-245 | A saved graph can be read if and only if every tensor in it has the shape of its data. |
| GraphFile.ResizedTensor | src/include/nerve/autodiff/autodiff.hpp:83 | A graph of one tensor whose data was resized is saved as a file that no reading accepts. |
| GraphFile.RoundTrip | src/autodiff/autodiff_gradients.cpp:166-245 | Loading a saved graph succeeds if and only if every tensor has the shape of its data, and then gives the same nodes, edges and gradients in the same order. |

## Left out

- ColumnReduction.ReduceDense: entries are 0 or 1; the code compares integers with 1 and XORs them bit by bit, and what it does with other integers is not modelled. It takes the -1 of a signed matrix for no entry, so signed matrices need their absolute values.
- ColumnReduction.ReduceSparse: row indices are non-negative and each stated length fits its row; the kernel does not check either, and negative indices would wrap around in its tables.
- ColumnReduction.AllReductionsAgree: composes the three entry points, which no function of the repository does.
- Pipeline.ReduceComplex: composes enumeration order, boundary matrices and the sparse reduction, which the repository leaves to its callers; columns are in enumeration order.
- Components.ConnectedComponents: edge indices are in range, which this kernel does not check.
- Kruskal.MstKruskal: edge indices are in range, which this kernel does not check.
- Buffers.TriangleEnumeration: takes the edge list of a threshold graph in row order, as the edge functions return it; other edge lists, for which order and uniqueness of the triangles are not promised, are not modelled.
- Simplices.EnumerateSimplices: the distance is an arbitrary function compared with the threshold; the code compares rounded distances or squares.
- Filtration.FiltrationValues: takes the maximum of distances where the code takes the root of the maximum of squares, which is the same for non-negative reals.
- Dbscan.Cluster: needs a symmetric distance, as the Euclidean one is; the empty results for zero dimension or a short point array are not modelled.
- Cover.Build1d: the degenerate range is any range below a positive constant; finite checks and overflow errors are not modelled.
- Cover.BuildNd: as Build1d; the dispatch on dimension count in `Cover::build` is not modelled beyond the one-dimensional case.
- Diameter.GraphDiameter: neighbour indices out of range in a given adjacency list are skipped as in the code; machine integer width is not modelled.
- Landscape.ComputeLandscape: the scalar branch; the resolution is not zero and the sample count is an unbounded integer.
- BettiCurve.ComputeBettiCurve: births are finite, the merge tolerance is any non-negative real instead of the code's constant, and the unused dimension argument is dropped.
- GraphFile.ComputationalGraph.Optimize: the six-decimal text key is any function of edge and gradient, so nothing is claimed about which gradients are merged.
- GraphFile.ReadTensor: a fractional number where a count is due is rejected; a stream would split its text into a count and a value.
- GraphFile.LoadGraph: works on tokens that are words or numbers; splitting the text, the 17-digit number format, what a stream makes of a negative or fractional number where a count is due, and opening the file are not modelled, and neither are tensor gradients, which are not saved.
- Floating-point rounding, overflow guards, dtype, shape and finiteness checks of arrays.
- The row assembly of `betti_curve_fast` and its time grid; only its count of living bars is used, as the reference for the sweep.
- Persistence images, PCA and density filters, which are numeric.
- `backward` of the computational graph, which averages gradients and has no meaning to preserve.
- Mapper graph construction, its connected components and its exports, which would add easier members.
- GPU, MPI and SIMD code, bindings, command line, engine selection, sampling and approximation, loaders.
