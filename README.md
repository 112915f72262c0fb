# Adjacency-matrix graph library (master.c), modelled in Dafny

`master.c` reads an undirected graph from a text file. The graph is stored
as a vertex count and an n-by-n matrix of ints. The library then answers
three questions about it: the degree of a vertex, the largest and smallest
degree, and a simple k-connectivity test.

This project models the core of that file in three modules:

- `CString` (`cstring.dfy`) models the two C library routines the loader
  calls on each line. `NextToken` is one call of `strtok` with a single
  delimiter: it skips leading delimiters and consumes the delimiter that
  ends the token. It returns the token together with the text the next call
  will scan, or `None` where strtok returns NULL. `Atoi` is C `atoi`: it
  skips white space, reads an optional sign and the longest run of digits,
  and yields 0 when no number starts the text.
- `Graphs` (`graph.dfy`) models the `Grafo` record as the class
  `Graph`. It has a `vertices` count and an `adj: array2<int>` matrix.
  - The constructor gives the zeroed matrix that `calloc` produces.
  - `InsertNeighbour` is the guarded double write of the loader.
  - `Degree`, `MaxDegree` and `MinDegree` are the `for` loops of
    `calcularGrado`, `gradoMaximo` and `gradoMinimo`.
  - `IsKConnected` is `esKConexo`.
  - Each loop is proved against a ghost function: the 1s counted in a row,
    or the running maximum or minimum. Lemmas and postconditions state what
    those functions mean.
- `Loader` (`loader.dfy`) models the edge-insertion part of
  `crearGrafoDesdeArchivo`. The vertex count `n` and the `lines` are given
  as inputs. `lines` are the chunks that `fgets` returns. They start where
  `fscanf(archivo, "%d\n", ...)` stopped, which is after the count and all
  the white space that follows it, blank lines and the leading blanks of the
  next line included. `ParseLine`, `Neighbours`,
  `LineEdges` and `Edges` give the edge set that the lines denote.
  `LoadFromLines`, `InsertLine` and `InsertNeighbours` are the nested
  `while` loops. They write the matrix cell by cell, and are proved to leave
  exactly the cells of that edge set at 1.

Vertices are 0-based in the model, as they are in the matrix. The file
numbers them from 1, and the loader subtracts 1 from every token
(`atoi(token) - 1`).

Behaviour of master.c worth stating:

- `esKConexo` is a degree test only. It returns false when `vertices <= k`,
  and otherwise returns `gradoMinimo(g) >= k`. Its own comment
  (master.c:123-124) says that this is a necessary but not a sufficient
  condition for k-connectivity.
- `esKConexo` does not reject `k < 1`. For every `k <= 0` below the vertex
  count it answers true (`NonPositiveKAccepted`).
- The loader can set diagonal cells: a line `1:1` sets `adj[0, 0]`.
- A line that ends right after `v:` still yields one neighbour token, the
  newline. `atoi` reads it as 0, which gives the index -1, and the loader
  discards it (`NeighboursOfNewline`, `ParseRendered`).
- The source vertex of a line is never range-checked. When it is out of
  range and some neighbour on the same line is in range, the C code writes
  outside the matrix, which is undefined behaviour. The model therefore
  requires `SafeLines(n, lines)`: every line with an in-range neighbour has
  an in-range source vertex. A line whose neighbours are all out of range
  needs nothing, because the guard on line 49 skips the writes.

## Model

| member | source | states |
|---|---|---|
| `CString.NextToken` | master.c:46-53 | each strtok call consumes at least one character, so the loop over ','-tokens ends |
| `CString.NextTokenShape` | master.c:41-53 | strtok returns NULL exactly when only delimiters remain; any token it returns is non-empty and contains no delimiter |
| `CString.NextTokenOf` | master.c:41-53 | a text made of delimiters, a token, and then either the end or one delimiter and a remainder, yields exactly that token and that remainder: leading delimiters (empty tokens) are skipped |
| `CString.Atoi` | master.c:43 | atoi skips white space, reads an optional sign and the longest run of digits; its result is negative only when a '-' follows the white space |
| `CString.DigitsValueNonNegative` | master.c:43 | the digits atoi reads denote a natural number, so the sign alone decides whether the result is negative |
| `CString.AtoiSigned` | master.c:43 | atoi of white space, a sign ("", "+" or "-"), a run of digits and a non-digit suffix is the run's value, negated only after '-' |
| `CString.LeadingZero` | master.c:43 | a leading zero does not change the value atoi reads ("007" is 7) |
| `CString.AtoiDecimal` | master.c:43 | atoi reads back the decimal numeral of every natural number, after any white space and before any non-digit such as the trailing newline |
| `CString.AtoiNegativeDecimal` | master.c:43 | atoi of white space, '-', the numeral of k and a non-digit suffix is -k |
| `CString.AtoiNoNumber` | master.c:48 | text in which no number starts after the white space and an optional sign ("\n", "a2", "x-1", "+ 3") is read as 0, so as a neighbour it becomes -1 and is dropped |
| `Graphs.Graph.constructor` | master.c:29-32 | an n-vertex graph whose n-by-n matrix is all 0 |
| `Graphs.Graph.InsertNeighbour` | master.c:49-52 | when the neighbour a is in [0, n), cells [v, a] and [a, v] become 1; every other cell keeps its value, and for an out-of-range a no cell changes |
| `Graphs.Graph.CountOnesIsCardinality` | master.c:80-88 | the running count of 1s over the first m columns of row v is the size of the set of those columns holding 1 |
| `Graphs.Graph.Degree` | master.c:80-88 | calcularGrado returns the number of columns j in [0, n) with adj[v, j] == 1, which lies in [0, n] |
| `Graphs.Graph.MaxDegreeUpTo` | master.c:93-100 | the running maximum after m vertices is at least every degree seen so far and equals one of them; it is 0 before any vertex |
| `Graphs.Graph.MinDegreeUpTo` | master.c:106-113 | the running minimum after m vertices is at most every degree seen so far and equals one of them; before any vertex it is the seed n |
| `Graphs.Graph.MaxDegree` | master.c:92-101 | gradoMaximo is at least every vertex's degree, equals some vertex's degree when n > 0, and is 0 when n == 0 |
| `Graphs.Graph.MinDegree` | master.c:105-114 | gradoMinimo is at most every vertex's degree, equals some vertex's degree when n > 0, and is 0 (the seed n) when n == 0 |
| `Graphs.Graph.MinDegreeAtMostMaxDegree` | master.c:92-114 | with at least one vertex, the minimum degree does not exceed the maximum degree |
| `Graphs.Graph.MinDegreeRule` | master.c:118-126 | comparing gradoMinimo with k, after the vertex-count test, is the same as requiring every vertex to have degree at least k |
| `Graphs.Graph.IsKConnected` | master.c:118-126 | esKConexo is true exactly when there are more than k vertices and every vertex has degree at least k |
| `Graphs.Graph.NonPositiveKAccepted` | master.c:118-126 | every k <= 0 that is below the vertex count is accepted |
| `Graphs.Graph.TooFewVerticesRejected` | master.c:119-121 | every k that is not below the vertex count is rejected |
| `Graphs.Graph.KConnectedRuleMonotone` | master.c:118-126 | a graph accepted for k is accepted for every smaller k |
| `Graphs.Graph.LowDegreeRejected` | master.c:125 | a vertex of degree below k makes the answer false; an isolated vertex does so for every k >= 1 |
| `Loader.Neighbours` | master.c:46-53 | the ','-token loop yields one index atoi(token) - 1 per token, in order, and so at most as many indices as the text has characters |
| `Loader.NeighboursEmpty` | master.c:46-47 | the loop yields no index exactly when only commas remain after ':' |
| `Loader.ParseLine` | master.c:41-53 | a line is split at its first ':'-token into the vertex atoi(token) - 1 and the neighbour indices of the rest; there is no vertex (the line is skipped) exactly when the line holds only ':' characters, and there are fewer neighbours than characters |
| `Loader.LineEdgesMembership` | master.c:47-54 | a pair is an edge of a line exactly when some in-range neighbour a of the line's vertex v makes it (v, a) or (a, v) |
| `Loader.OutOfRangeNeighbourIgnored` | master.c:48-52 | removing a neighbour outside [0, n) from anywhere in a line's list leaves the line's edges unchanged |
| `Loader.EdgesSymmetric` | master.c:40-56 | (i, j) is an edge of the loaded lines exactly when (j, i) is |
| `Loader.EdgesInRange` | master.c:43-51 | on safe input both ends of every edge lie in [0, n) |
| `Loader.NeighboursOfNewline` | master.c:46-53 | the token list of a bare newline is the single index -1 |
| `Loader.ParseRendered` | master.c:40-54 | a line "v:a1,...,am" with its newline is read back as vertex v-1 and neighbours a1-1, ..., am-1; with no neighbours it is read as vertex v-1 and the index -1 |
| `Loader.RenderedLineEdges` | master.c:40-54 | the edges of such a line, all numbers in [1, n], are exactly the pairs between v-1 and each ai-1, in both directions |
| `Loader.InsertNeighbours` | master.c:46-54 | the ','-token loop sets to 1 exactly the cells of the edges that the line's neighbours give, and leaves every other cell unchanged |
| `Loader.InsertLine` | master.c:41-55 | handling one line sets to 1 exactly the cells of that line's edges, and skips a line made only of ':' characters (strtok finds no token) |
| `Loader.LoadFromLines` | master.c:29-56 | starting from the zeroed matrix, the loaded matrix holds 1 exactly at the pairs of Edges(n, lines) and 0 elsewhere; it is symmetric and every cell is 0 or 1 |

## Left out

- Opening the file and reporting failure when it cannot be opened (master.c:16-20), reading the vertex count with `fscanf` (master.c:26), and closing the file are I/O. The white space that `"%d\n"` consumes after the count is not modelled: `lines` must start where `fscanf` stopped, so text on the count's own line (as in "3 1:2") belongs to the first chunk. The count `n` and the lines are parameters, and `n` is a `nat`: the model does not cover a count that `fscanf` fails to read or reads as negative.
- `fgets` reads at most 255 characters at a time. A longer physical line reaches the loader as several pieces, and each piece is parsed as a line of its own. The model takes the pieces as its `lines` input and does not split physical lines itself.
- A line is taken as a Dafny string. An embedded NUL character, which would end the C string early, is not modelled.
- `Atoi` and the `- 1` after it use unbounded integers. A token whose value does not fit in an `int` is undefined behaviour in C and is not modelled.
- `malloc`, `calloc` and `free`, and `liberarGrafo` (master.c:130-136), are memory management. The constructor stands for the zeroed matrix; releasing memory is not modelled.
- `imprimirGrafo` (master.c:65-76) only formats output, and the interactive menu in `main` (master.c:139-240) only calls the operations above. Neither is modelled.
- `Graphs.Graph.Degree`: requires `0 <= v < n`. `calcularGrado` does not check this, and its callers in the file only pass vertices in range.
- `Loader.LoadFromLines`: requires `SafeLines(n, lines)`, because the C code writes outside the matrix when an out-of-range source vertex has an in-range neighbour. `Loader.InsertLine` and `Graphs.Graph.InsertNeighbour` carry the same requirement for one line and one write.
- master.c has no connectivity search: `esKConexo` is the degree test alone, and that test is modelled in full.
