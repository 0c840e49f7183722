# Radius-of-gyration statistics and the alpha-graph g-factor, in Dafny

This project models the two computational parts of a study that compares
the compactness of a tetracyclic "alpha" polymer with that of a tree
(dendrimer) polymer of the same mass.

* **The gyration-series analysis** is `get_avg_rg_from_file` and the
  custom ratio of `main` in `lammps_files/compute_gyration.py`. It works on
  a LAMMPS radius-of-gyration series that has already been parsed into
  (timestep, Rg) rows.
  * It picks the equilibrated tail of the series. The tail starts at
    `(3N) // 4`. There is a fallback to sample 1 for a zero start, and a
    series of at most one sample is rejected.
  * Over the tail it computes the mean `<Rg>`, the population variance
    (the square of `np.std`, divisor = window length) and the mean square
    `<Rg^2>`.
  * `main` divides the alpha `<Rg^2>` by the tree `<Rg^2>`.
* **The alpha-graph analysis** is `AlphaGraphAnalysis` in
  `lammps_files/tetracyclic_analysis.py`.
  * `create_alpha_graph` builds an undirected `networkx.Graph` in place
    with six junction vertices and nine chains.
  * `calculate_theoretical_g_factor` reads `v` and `e` off the graph and
    takes the cycle rank `e - v + 1`. It then applies Theorem 5 of
    Cantarella et al. (2022), `g = (3 / e^2) (Tr(L+) + loops / 3 - 1 / 6)`,
    with the trace of the pseudo-inverse of the normalized Laplacian taken
    as an input.

Files:

| file | module | contents |
|---|---|---|
| `wrappers.dfy` | `Wrappers` | `Option`, for the Python `None` results |
| `equilibration.dfy` | `Equilibration` | the window start |
| `moments.dfy` | `Moments` | sums, mean, mean square and population variance over `seq<real>`, with their lemmas |
| `gyration.dfy` | `Gyration` | the analysis record, the analysis itself, the ratio and the outcome of `main`, and a worked example |
| `graphs.dfy` | `Graphs` | the part of `networkx.Graph` that the alpha-graph analysis uses: the in-place `Graph` class and its value semantics, degrees, walks, connectivity |
| `alpha_graph.dfy` | `AlphaGraph` | the edge literal (as written and as intended), the alpha graph and its facts, the g-factor and the `AlphaGraphAnalysis` class |

Sample values are exact reals. `get_avg_rg_from_file` and
`calculate_theoretical_g_factor` are pure computations, so they are
functions.

`create_alpha_graph` mutates a graph object, so `Graphs.Graph` is a class.
Its `AddNodesFrom` and `AddEdgesFrom` methods loop over their arguments the
way `networkx` does:
* nodes are kept in insertion order and a node already present is skipped;
* `add_edge(u, v)` adds missing endpoints, and a pair already present in
  either orientation is not added again.

Each method is proved against the functions `Graphs.WithNodes` and
`Graphs.WithEdges`, and the facts about the graph are proved about those
functions.

Two facts about the code that are easy to misread:
* The edge list is not the complete bipartite graph K(3,3). `(1, 5)`
  joins two odd vertices, and vertex 6 has degree 2 (`AlphaGraph.AlphaDegrees`).
* `rg2_alpha / rg2_tree` divides two `numpy.float64` values. A zero tree
  `<Rg^2>` therefore gives `inf` or `nan`, not an exception, and the model
  has a `NonFinite` outcome for it (`Gyration.CustomRatio`).

## Model

| member | source | states |
|---|---|---|
| Equilibration.EquilibratedStart | lammps_files/compute_gyration.py:37-44 | The series is rejected (`None`) exactly when N ≤ 1. Otherwise the start lies strictly inside the series and skips sample 0 (1 ≤ start < N). It is the floor of 3N/4 (4·start ≤ 3N < 4·start + 4), and the window keeps at least a quarter of the samples. |
| Equilibration.FallbackNeverFires | lammps_files/compute_gyration.py:37-41 | For N ≥ 2 the floor `(3N) // 4` is already ≥ 1. The `start == 0` fallback therefore never changes the start, which is exactly `(3N) // 4`. |
| Equilibration.StartBoundaryCases | lammps_files/compute_gyration.py:37-44 | N = 0 and N = 1 are rejected. N = 2, 3, 4, 5 and 8 start at 1, 2, 3, 3 and 6. |
| Gyration.Timesteps | lammps_files/compute_gyration.py:33 | `data[:, 0]`: one entry per row, entry i the timestep of row i. |
| Gyration.RgValues | lammps_files/compute_gyration.py:34 | `data[:, 1]`: one entry per row, entry i the Rg sample of row i. |
| Gyration.AnalyzeRgSeries | lammps_files/compute_gyration.py:33-64 | The result is `None` exactly when the series has at most one row. Otherwise the record holds the timestep column and the Rg column, and the start with the bounds above. The window is the Rg column from the start on, is the non-empty tail, and holds at least a quarter of the rows. `avgRg` is the mean of the window and `avgRgSquared` the mean of its squares. |
| Gyration.AnalysisStatistics | lammps_files/compute_gyration.py:46-54 | For every successful analysis, `avgRg` times the window length is the window's sum, and `avgRgSquared` times it is the sum of squares. `avgRgSquared` ≥ 0 and `avgRgSquared` ≥ `avgRg`², with equality exactly when all window values are equal. The population variance of the window is `avgRgSquared − avgRg`². |
| Gyration.WindowSums | lammps_files/compute_gyration.py:48-54 | For a record whose two means are those of its window, the means times the window length are the sum and the sum of squares. |
| Gyration.WindowBounds | lammps_files/compute_gyration.py:48-54 | For such a record, `avgRgSquared` ≥ 0, ≥ `avgRg`², and equal to `avgRg`² exactly when the window is constant. |
| Gyration.WindowVariance | lammps_files/compute_gyration.py:48-54 | For such a record, the window's population variance is `avgRgSquared − avgRg`². |
| Gyration.WindowMeanSquareZero | lammps_files/compute_gyration.py:54 | For such a record, `avgRgSquared` is 0 exactly when every window sample is 0. |
| Moments.Mean | lammps_files/compute_gyration.py:48 | `np.mean`: the window's sum divided by its length. It carries no contract of its own; `Moments.MeanTimesCount` states its meaning. |
| Moments.MeanSquare | lammps_files/compute_gyration.py:54 | `np.mean(x ** 2)`: the sum of squares divided by the length. `Moments.MeanSquareTimesCount` states its meaning, and `Moments.MeanSquareBounds` and `Moments.MeanSquareZeroIff` state its properties. |
| Moments.PopulationVariance | lammps_files/compute_gyration.py:49 | The square of `np.std` (ddof = 0): the squared deviations from the mean divided by the length. `Moments.VarianceTimesCount` states its meaning, and `Moments.VarianceIsMeanSquareMinusSquaredMean`, `Moments.VarianceNonnegative` and `Moments.VarianceZeroIff` state its properties. |
| Moments.CountIsLength | lammps_files/compute_gyration.py:48-54 | The divisor of the three statistics is the window length. |
| Moments.MeanTimesCount | lammps_files/compute_gyration.py:48 | Restates the definition of `Mean` without division: the mean times the (positive) window length is the window's sum. It is the bridge the results below are proved from. |
| Moments.MeanSquareTimesCount | lammps_files/compute_gyration.py:54 | Restates the definition of `MeanSquare` without division: the mean square times the window length is the sum of squares. It is a bridge for the results below. |
| Moments.VarianceTimesCount | lammps_files/compute_gyration.py:49 | Restates the definition of `PopulationVariance` without division: the variance times the window length is the sum of squared deviations from the mean (ddof = 0). It is a bridge for the results below. |
| Moments.VarianceIsMeanSquareMinusSquaredMean | lammps_files/compute_gyration.py:49-54 | Over any non-empty sequence, the population variance is the mean square minus the square of the mean. |
| Moments.VarianceNonnegative | lammps_files/compute_gyration.py:49 | The population variance is never negative. |
| Moments.VarianceZeroIff | lammps_files/compute_gyration.py:49 | The population variance is 0 exactly when all values are equal, in both directions. |
| Moments.MeanSquareBounds | lammps_files/compute_gyration.py:51-54 | The mean square is ≥ 0 and ≥ the squared mean (`<Rg^2>` is not `<Rg>^2`), with equality exactly when all values are equal. |
| Moments.MeanSquareZeroIff | lammps_files/compute_gyration.py:54 | The mean square is 0 exactly when every value is 0. |
| Moments.SquaredDeviationsExpand | lammps_files/compute_gyration.py:49 | The sum of squared deviations from a centre m expands to Σx² − 2m·Σx + n·m². |
| Moments.SumSquaresZeroIff | lammps_files/compute_gyration.py:54 | A sum of squares is 0 exactly when every value is 0. |
| Gyration.Ratio | lammps_files/compute_gyration.py:96 | For a non-zero tree `<Rg^2>`, the ratio times the tree `<Rg^2>` is the alpha `<Rg^2>`. |
| Gyration.RatioInverse | lammps_files/compute_gyration.py:96 | For non-zero a and b, `Ratio(a, b) · Ratio(b, a) = 1`. |
| Gyration.CustomRatio | lammps_files/compute_gyration.py:84-96 | `main` exits exactly when either analysis failed. The ratio is non-finite exactly when both succeeded and the tree `<Rg^2>` is 0. Otherwise the ratio times the tree `<Rg^2>` is the alpha `<Rg^2>`. |
| Gyration.CompareSeries | lammps_files/compute_gyration.py:81-96 | The ratio step is reached, and not an exit, exactly when both series have at least two rows. |
| Gyration.CompareSeriesOutcome | lammps_files/compute_gyration.py:84-96 | For two analysable series, the ratio is non-finite exactly when every sample of the tree window is 0. Otherwise the ratio is never negative. |
| Gyration.WorkedExample | lammps_files/compute_gyration.py:37-96 | For alpha values [10,10,10,10,20,20,20,20] and tree values [5,5,5,5,10,10,10,10], both windows start at 6. The mean squares are 400 and 100, and the ratio is exactly 4. |
| AlphaGraph.EvaluateEdgeLiteral | lammps_files/tetracyclic_analysis.py:29-33 | Evaluating a list literal of pairs raises `TypeError` exactly when some element is a call of a tuple. Otherwise it yields, element by element, the listed pairs. |
| AlphaGraph.CreateFromLiteral | lammps_files/tetracyclic_analysis.py:23-36 | `create_alpha_graph` raises exactly when its literal does. Otherwise the graph is simple. Its nodes are exactly the six vertices and the endpoints of the literal's pairs, and its edges are exactly the pairs of the literal. |
| AlphaGraph.WrittenLiteralRaises | lammps_files/tetracyclic_analysis.py:29-33 | As written, the literal has 8 elements, one of them the call `(3, 6)(5, 2)`, so evaluating it and `create_alpha_graph` raise. |
| AlphaGraph.EvaluatePairs | lammps_files/tetracyclic_analysis.py:29-33 | A literal made only of pairs evaluates to exactly those pairs. |
| AlphaGraph.IntendedLiteralEvaluates | lammps_files/tetracyclic_analysis.py:29-33 | With the missing comma restored, the literal evaluates to the nine alpha edges. |
| AlphaGraph.IntendedLiteralCreatesAlpha | lammps_files/tetracyclic_analysis.py:23-36 | With the comma restored, `create_alpha_graph` builds the alpha graph. |
| AlphaGraph.AlphaGraphValue | lammps_files/tetracyclic_analysis.py:23-36 | The contents `create_alpha_graph` builds from the comma-restored literal. `AlphaGraph.AlphaGraphContents` states that they are exactly the six vertices and nine edges, and that the graph is simple. |
| AlphaGraph.AlphaEndpoints | lammps_files/tetracyclic_analysis.py:28-33 | There are 6 distinct vertices and 9 edges, and every endpoint is one of the vertices. |
| AlphaGraph.AlphaNoSelfLoops | lammps_files/tetracyclic_analysis.py:29-33 | No edge joins a vertex to itself. |
| AlphaGraph.AlphaEdgesDistinct | lammps_files/tetracyclic_analysis.py:29-33 | No unordered pair occurs twice, in either orientation. |
| AlphaGraph.AlphaNodesAdded | lammps_files/tetracyclic_analysis.py:34 | `add_nodes_from` on the empty graph keeps the six vertices in order. |
| AlphaGraph.AlphaEdgesAdded | lammps_files/tetracyclic_analysis.py:35 | `add_edges_from` on the six vertices keeps the nine edges, none merged. |
| AlphaGraph.AlphaGraphContents | lammps_files/tetracyclic_analysis.py:24-35 | The built graph is exactly the 6 listed vertices and 9 listed edges (so `number_of_nodes()` is 6 and `number_of_edges()` is 9), and it is simple. |
| AlphaGraph.AlphaDegreeIsEnds | lammps_files/tetracyclic_analysis.py:29-33 | The degree of any value is the number of edge ends at it. |
| AlphaGraph.AlphaDegrees | lammps_files/tetracyclic_analysis.py:29-33 | Vertices 1 to 6 have degrees 3, 3, 3, 3, 4 and 2. Every other value has degree 0. |
| AlphaGraph.AlphaHandshake | lammps_files/tetracyclic_analysis.py:29-35 | The degrees of the six vertices sum to 2e = 18. |
| AlphaGraph.AlphaNoIsolatedVertex | lammps_files/tetracyclic_analysis.py:29-33 | Every vertex has positive degree, as the normalized Laplacian of line 51 needs. |
| AlphaGraph.SpanningTreeInAlpha | lammps_files/tetracyclic_analysis.py:29-33 | Five of the chains, one fewer than the vertices, are all alpha edges. |
| AlphaGraph.SpanningTreeReachesHub | lammps_files/tetracyclic_analysis.py:29-33 | Over those five chains, every vertex has a walk to vertex 1. |
| AlphaGraph.AlphaConnected | lammps_files/tetracyclic_analysis.py:47-48 | The alpha graph is connected, as the "+1" (one component) of the cycle rank assumes. |
| AlphaGraph.CycleRank | lammps_files/tetracyclic_analysis.py:48 | `e - v + 1`. `AlphaGraph.AlphaCycleRank` states its value, 4, on the built graph, and `AlphaGraph.AlphaConnected` shows the one-component assumption behind it holds. |
| AlphaGraph.AlphaCycleRank | lammps_files/tetracyclic_analysis.py:47-48 | The cycle rank of the built graph is 4 (tetracyclic). It equals the number of chains outside the spanning tree. |
| AlphaGraph.GFactor | lammps_files/tetracyclic_analysis.py:60 | With no edges, `3 / (e**2)` raises (`None`). Otherwise g·e² = 3 (trace + loops / 3 − 1 / 6). |
| AlphaGraph.TheoreticalGFactor | lammps_files/tetracyclic_analysis.py:44-60 | On a graph with v nodes and e edges, the result is undefined exactly when e = 0. Otherwise g·e² = 3 (trace + (e − v + 1) / 3 − 1 / 6). |
| AlphaGraph.AlphaGFactorClosedForm | lammps_files/tetracyclic_analysis.py:44-60 | For the alpha graph (e = 9, loops = 4), g = (trace + 7/6) / 27 for every trace. |
| AlphaGraph.GFactorIncreasing | lammps_files/tetracyclic_analysis.py:60 | For any non-zero edge count, g is strictly increasing in the trace. |
| AlphaGraph.CreateAlphaGraph | lammps_files/tetracyclic_analysis.py:23-36 | It returns a fresh, valid graph whose contents are exactly the six vertices and nine edges. |
| AlphaGraph.AlphaGraphAnalysis.constructor | lammps_files/tetracyclic_analysis.py:18-20 | `__init__` stores in `G` a fresh valid graph holding exactly the alpha vertices and edges. |
| AlphaGraph.AlphaGraphAnalysis.CalculateTheoreticalGFactor | lammps_files/tetracyclic_analysis.py:44-60 | The result is the formula applied to the stored graph's node and edge counts, with cycle rank `e - v + 1`. |
| AlphaGraph.AnalyzeAlpha | lammps_files/tetracyclic_analysis.py:18-60 | On a freshly built analysis, the g-factor for trace t is (t + 7/6) / 27. |
| Graphs.Graph.constructor | lammps_files/tetracyclic_analysis.py:25 | `nx.Graph()` is empty and valid. |
| Graphs.Graph.AddNodesFrom | lammps_files/tetracyclic_analysis.py:34 | `add_nodes_from` appends the new values in order, skips those already present, leaves the edges alone and keeps the graph simple. |
| Graphs.Graph.AddEdgesFrom | lammps_files/tetracyclic_analysis.py:35 | `add_edges_from` adds the edges one by one, each with its missing endpoints, skips pairs already present, and keeps the graph simple. |
| Graphs.WithNode | lammps_files/tetracyclic_analysis.py:34 | `add_node`: appends a value not yet present and otherwise leaves the nodes alone. `Graphs.WithNodeFacts` states that the result holds exactly the old nodes and the value, without repeats. |
| Graphs.WithNodes | lammps_files/tetracyclic_analysis.py:34 | `add_nodes_from`: `add_node` for each value in order. `Graphs.WithNodesFacts` and `Graphs.WithNodesFresh` state its meaning, and `Graphs.Graph.AddNodesFrom` is proved against it. |
| Graphs.WithEdge | lammps_files/tetracyclic_analysis.py:35 | `add_edge(u, v)`: adds the missing endpoints, `u` first, and appends the pair unless it is present in either orientation. `Graphs.WithEdgeFacts` states its meaning. |
| Graphs.WithEdges | lammps_files/tetracyclic_analysis.py:35 | `add_edges_from`: `add_edge` for each pair in order. `Graphs.WithEdgesFacts` and `Graphs.WithEdgesFresh` state its meaning, and `Graphs.Graph.AddEdgesFrom` is proved against it. |
| Graphs.WithNodeFacts | lammps_files/tetracyclic_analysis.py:34 | After `add_node(x)`, the nodes are exactly the old ones and `x`, and a repeat-free list stays repeat-free. |
| Graphs.WithEdgeFacts | lammps_files/tetracyclic_analysis.py:35 | After `add_edge(u, v)`, the nodes are the old ones plus `u` and `v`, the edges are the old ones plus the pair, and a simple graph stays simple. |
| Graphs.WithNodesFacts | lammps_files/tetracyclic_analysis.py:34 | After `add_nodes_from`, the nodes are exactly the old ones and the added values, and no node repeats. |
| Graphs.WithEdgesFacts | lammps_files/tetracyclic_analysis.py:35 | After `add_edges_from`, the nodes are the old ones plus every endpoint, the edges are the old ones plus the added pairs, and a simple graph stays simple. |
| Graphs.WithNodesFresh | lammps_files/tetracyclic_analysis.py:34 | Adding values none of which is present, and none repeated, appends them unchanged. |
| Graphs.WithEdgesFresh | lammps_files/tetracyclic_analysis.py:35 | Adding edges between existing nodes, none present or repeated, appends them unchanged and leaves the nodes alone. |
| Graphs.Graph.NumberOfNodes | lammps_files/tetracyclic_analysis.py:44 | `number_of_nodes()`: the length of the node list, which `Valid` keeps free of repeats. |
| Graphs.Graph.NumberOfEdges | lammps_files/tetracyclic_analysis.py:45 | `number_of_edges()`: the length of the edge list, which `Valid` keeps free of repeated unordered pairs. |
| Graphs.Degree | lammps_files/tetracyclic_analysis.py:51 | The degree the normalized Laplacian divides by: the number of edge ends at a node. `Graphs.DegreeCons` reduces it edge by edge, and `Graphs.Handshake` sums it. |
| Graphs.DegreeCons | lammps_files/tetracyclic_analysis.py:51 | The degree over one more edge adds that edge's ends at the node. |
| Graphs.Handshake | lammps_files/tetracyclic_analysis.py:44-45 | Over a repeat-free node list holding every endpoint, the degrees sum to twice the edge count. |
| Graphs.ConnectedThroughHub | lammps_files/tetracyclic_analysis.py:47-48 | A graph in which every node has a walk to one hub is connected. |

## Left out

- File handling is not modelled: `os.path.exists`, `np.loadtxt` with comment stripping, the shape check and the catch-all `except` (compute_gyration.py:20-31, 66-68). numpy's parsing rules are not modelled. The analysis takes the parsed rows as input, and a file that fails to load is treated like a failed analysis (`None`).
- The square root in `np.std` (compute_gyration.py:49) is not modelled. The model states facts about the variance, i.e. `std_rg` squared. `std_rg` itself is only printed, never returned, so the analysis record does not hold it.
- float64 rounding is not modelled. All statistics and the g-factor are over exact reals. A zero divisor in the ratio is the one float64 behaviour modelled: it becomes the `NonFinite` outcome. Its exact value (`inf` or `nan`) and numpy's warning are left out.
- `nx.normalized_laplacian_matrix`, `scipy.linalg.pinv` and `np.trace` (tetracyclic_analysis.py:50-57) are floating-point linear algebra in foreign libraries. The trace of L+ is a parameter of the g-factor.
- `expected_g_from_paper` (tetracyclic_analysis.py:21) is not modelled. It is stored as 17/49 ≈ 0.347 but printed with the label "109/245", and the title at line 80 says "g ≈ 0.445". 109/245 ≈ 0.4449 agrees with the title; the stored 17/49 disagrees with both, so no value is asserted.
- `print`, plotting and `savefig`, the results file, `visualize_graph` and `spring_layout`, and `sys.argv` handling are I/O and are not modelled (compute_gyration.py:57-60, 98-176; tetracyclic_analysis.py:62-69, 73-99). `sys.exit(1)` is modelled as the `Exit` outcome, without an exit code.
- Graphs.Graph only covers the part of `networkx.Graph` that the alpha-graph analysis uses: node and edge insertion, counts, degree and walks. Node and edge attributes and the rest of the `networkx` interface are not modelled.

## Findings

| source | as written | input that shows it | evidently intended | confidence | as-written member | corrected member |
|---|---|---|---|---|---|---|
| lammps_files/tetracyclic_analysis.py:31-32 | There is no comma after `(3, 6)`, so Python reads `(3, 6)` followed by `(5, 2)` as a call of the tuple `(3, 6)`. The list has 8 elements, and `create_alpha_graph` raises `TypeError: 'tuple' object is not callable`. | the edge literal itself, which `__init__` always evaluates | nine separate pairs, the 6-vertex 9-edge graph of the docstrings | high (syntax), not executed | AlphaGraph.WrittenLiteralRaises | AlphaGraph.IntendedLiteralEvaluates, AlphaGraph.CreateAlphaGraph |
