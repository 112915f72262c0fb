/** The edge-insertion part of crearGrafoDesdeArchivo. The vertex count and
    the chunks that fgets returns are given (they start where fscanf's "%d\n"
    stopped, after the count and all the white space that follows it); each
    chunk is split
    at ':' into the source vertex and a ','-separated list of neighbours, both
    1-based, and every in-range neighbour becomes an undirected edge. */
module Loader {
  import opened CString
  import opened Graphs

  // ---------------------------------------------------------------------
  // What a line says
  // ---------------------------------------------------------------------

  /** The 0-based neighbour indices the ','-tokens of `s` name, in order:
      one per token, so never more than `s` has characters. */
  function Neighbours(s: string): (r: seq<int>)
    ensures |r| <= |s|
    decreases |s|
  {
    match NextToken(s, ',')
    case None => []
    case Some((token, rest)) => [Atoi(token) - 1] + Neighbours(rest)
  }

  /** The token loop yields no neighbour exactly when only commas are left. */
  lemma NeighboursEmpty(s: string)
    ensures Neighbours(s) == [] <==> forall i | 0 <= i < |s| :: s[i] == ','
  {
    NextTokenShape(s, ',');
  }

  /** The source vertex and the neighbours of one line, both 0-based; `None`
      exactly when strtok finds no token before ':', that is when the line
      holds only ':' characters (the line is skipped). */
  function ParseLine(line: string): (r: Option<(int, seq<int>)>)
    ensures r.None? <==> forall i | 0 <= i < |line| :: line[i] == ':'
    ensures r.Some? ==> |r.value.1| < |line|
  {
    NextTokenShape(line, ':');
    match NextToken(line, ':')
    case None => None
    case Some((token, rest)) => Some((Atoi(token) - 1, Neighbours(rest)))
  }

  /** The edges that neighbours `adjs` of vertex `v` add, in both directions;
      neighbours outside [0, n) add none. */
  function LineEdges(n: int, v: int, adjs: seq<int>): set<(int, int)>
    decreases |adjs|
  {
    if adjs == [] then {}
    else
      var a := adjs[|adjs| - 1];
      LineEdges(n, v, adjs[..|adjs| - 1]) + (if 0 <= a < n then {(v, a), (a, v)} else {})
  }

  /** The edges that a line adds. */
  function EdgesOfLine(n: int, line: string): set<(int, int)> {
    match ParseLine(line)
    case None => {}
    case Some((v, adjs)) => LineEdges(n, v, adjs)
  }

  /** The edges that all the lines add, in order. */
  function Edges(n: int, lines: seq<string>): set<(int, int)>
    decreases |lines|
  {
    if lines == [] then {}
    else Edges(n, lines[..|lines| - 1]) + EdgesOfLine(n, lines[|lines| - 1])
  }

  /** The C code writes row `v` whenever a neighbour is in range, without
      checking `v` itself; a line whose source vertex is out of range and has
      an in-range neighbour writes outside the matrix. */
  predicate SafeLine(n: int, line: string) {
    match ParseLine(line)
    case None => true
    case Some((v, adjs)) => forall j | 0 <= j < |adjs| :: 0 <= adjs[j] < n ==> 0 <= v < n
  }

  predicate SafeLines(n: int, lines: seq<string>) {
    forall l | 0 <= l < |lines| :: SafeLine(n, lines[l])
  }

  // ---------------------------------------------------------------------
  // Properties of the edge sets
  // ---------------------------------------------------------------------

  /** A pair is an edge of a line exactly when some in-range neighbour of the
      line's vertex produces it, in one direction or the other. */
  lemma {:induction false} LineEdgesMembership(n: int, v: int, adjs: seq<int>, i: int, j: int)
    ensures (i, j) in LineEdges(n, v, adjs) <==>
      exists t | 0 <= t < |adjs| :: 0 <= adjs[t] < n && ((i == v && j == adjs[t]) || (i == adjs[t] && j == v))
    decreases |adjs|
  {
    if adjs != [] {
      var init := adjs[..|adjs| - 1];
      LineEdgesMembership(n, v, init, i, j);
      assert forall t | 0 <= t < |init| :: init[t] == adjs[t];
    }
  }

  /** A neighbour outside [0, n) contributes nothing, wherever it stands
      among the others. */
  lemma {:induction false} OutOfRangeNeighbourIgnored(n: int, v: int, xs: seq<int>, a: int, ys: seq<int>)
    requires !(0 <= a < n)
    ensures LineEdges(n, v, xs + [a] + ys) == LineEdges(n, v, xs + ys)
    decreases |ys|
  {
    if ys == [] {
      assert xs + [a] + ys == xs + [a];
      assert (xs + [a])[..|xs|] == xs;
      assert xs + ys == xs;
    } else {
      var init := ys[..|ys| - 1];
      OutOfRangeNeighbourIgnored(n, v, xs, a, init);
      assert (xs + [a] + ys)[..|xs + [a] + ys| - 1] == xs + [a] + init;
      assert (xs + ys)[..|xs + ys| - 1] == xs + init;
    }
  }

  /** Every edge set the loader builds is symmetric. */
  lemma {:induction false} EdgesSymmetric(n: int, lines: seq<string>, i: int, j: int)
    ensures (i, j) in Edges(n, lines) <==> (j, i) in Edges(n, lines)
    decreases |lines|
  {
    if lines != [] {
      EdgesSymmetric(n, lines[..|lines| - 1], i, j);
      match ParseLine(lines[|lines| - 1])
      case None =>
      case Some((v, adjs)) =>
        LineEdgesMembership(n, v, adjs, i, j);
        LineEdgesMembership(n, v, adjs, j, i);
    }
  }

  /** On safe input both ends of every edge are vertices. */
  lemma {:induction false} EdgesInRange(n: int, lines: seq<string>, i: int, j: int)
    requires SafeLines(n, lines)
    requires (i, j) in Edges(n, lines)
    ensures 0 <= i < n && 0 <= j < n
    decreases |lines|
  {
    var init := lines[..|lines| - 1];
    assert forall l | 0 <= l < |init| :: init[l] == lines[l];
    if (i, j) in Edges(n, init) {
      EdgesInRange(n, init, i, j);
    } else {
      var line := lines[|lines| - 1];
      assert SafeLine(n, line);
      match ParseLine(line)
      case Some((v, adjs)) =>
        LineEdgesMembership(n, v, adjs, i, j);
    }
  }

  // ---------------------------------------------------------------------
  // The input format, read back
  // ---------------------------------------------------------------------

  /** The neighbour list "a1,a2,...,am" in decimal. */
  function JoinDecimal(adjs: seq<nat>): string
    decreases |adjs|
  {
    if adjs == [] then []
    else if |adjs| == 1 then Decimal(adjs[0])
    else Decimal(adjs[0]) + [','] + JoinDecimal(adjs[1..])
  }

  /** A line of the input format: "v:a1,...,am" and the newline fgets keeps. */
  function Render(v: nat, adjs: seq<nat>): string {
    Decimal(v) + [':'] + (JoinDecimal(adjs) + ['\n'])
  }

  /** 1-based numbers to 0-based indices. */
  function ToIndices(adjs: seq<nat>): seq<int>
    decreases |adjs|
  {
    if adjs == [] then [] else [adjs[0] as int - 1] + ToIndices(adjs[1..])
  }

  lemma DecimalHasNoDelimiter(k: nat, d: char)
    requires !IsDigit(d)
    ensures Decimal(k) != [] && d !in Decimal(k)
  {
    DecimalIsNumeral(k);
  }

  /** One unfolding of Neighbours, for a text whose first token is known. */
  lemma NeighboursStep(s: string, x: string, y: string)
    requires NextToken(s, ',') == Some((x, y))
    ensures Neighbours(s) == [Atoi(x) - 1] + Neighbours(y)
  {
  }

  /** The first ','-token of `x + "," + y` is `x` when `x` has no ',' in it. */
  lemma NeighboursCons(x: string, y: string)
    requires x != [] && ',' !in x
    ensures Neighbours(x + [','] + y) == [Atoi(x) - 1] + Neighbours(y)
  {
    NextTokenOf([], x, y, ',');
    assert [] + x + [','] + y == x + [','] + y;
    NeighboursStep(x + [','] + y, x, y);
  }

  /** A ','-free text is a single token. */
  lemma NeighboursSingle(x: string)
    requires x != [] && ',' !in x
    ensures Neighbours(x) == [Atoi(x) - 1]
  {
    NextTokenOf([], x, [], ',');
    assert [] + x == x;
    NeighboursStep(x, x, []);
    assert Neighbours([]) == [];
  }

  lemma AtoiNumeral(k: nat, rest: string)
    requires rest == [] || !IsDigit(rest[0])
    ensures Atoi(Decimal(k) + rest) == k
  {
    AtoiDecimal([], k, rest);
    assert [] + (Decimal(k) + rest) == Decimal(k) + rest;
  }

  /** "a," followed by more tokens. */
  lemma NumeralThenComma(a: nat, y: string)
    ensures Neighbours(Decimal(a) + [','] + y) == [a as int - 1] + Neighbours(y)
  {
    DecimalHasNoDelimiter(a, ',');
    NeighboursCons(Decimal(a), y);
    AtoiNumeral(a, []);
    assert Decimal(a) + [] == Decimal(a);
  }

  /** "a" and the newline, at the end of the line. */
  lemma NumeralThenNewline(a: nat)
    ensures Neighbours(Decimal(a) + ['\n']) == [a as int - 1]
  {
    var x := Decimal(a) + ['\n'];
    DecimalHasNoDelimiter(a, ',');
    assert ',' !in x;
    NeighboursSingle(x);
    AtoiNumeral(a, ['\n']);
  }

  lemma {:induction false} NeighboursOfJoin(adjs: seq<nat>)
    requires adjs != []
    ensures Neighbours(JoinDecimal(adjs) + ['\n']) == ToIndices(adjs)
    decreases |adjs|
  {
    var a := adjs[0];
    if |adjs| == 1 {
      assert JoinDecimal(adjs) == Decimal(a);
      NumeralThenNewline(a);
      assert ToIndices(adjs) == [a as int - 1] + ToIndices([]);
    } else {
      var y := JoinDecimal(adjs[1..]) + ['\n'];
      assert JoinDecimal(adjs) + ['\n'] == Decimal(a) + [','] + y;
      NumeralThenComma(a, y);
      NeighboursOfJoin(adjs[1..]);
    }
  }

  /** A line with an empty neighbour list, "v:" and the newline: the newline
      is itself a token, which atoi reads as 0. */
  lemma NeighboursOfNewline()
    ensures Neighbours(['\n']) == [-1]
  {
    NeighboursSingle(['\n']);
    AtoiNoNumber(['\n']);
  }

  /** "v:" followed by anything: the vertex is read back minus one. */
  lemma ParseNumeralHead(v: nat, y: string)
    ensures ParseLine(Decimal(v) + [':'] + y) == Some((v - 1, Neighbours(y)))
  {
    DecimalHasNoDelimiter(v, ':');
    NextTokenOf([], Decimal(v), y, ':');
    assert [] + Decimal(v) + [':'] + y == Decimal(v) + [':'] + y;
    AtoiNumeral(v, []);
    assert Decimal(v) + [] == Decimal(v);
    ParseLineOf(Decimal(v) + [':'] + y, Decimal(v), y);
  }

  /** A line written in the input format is read back as its vertex and
      neighbours, each minus one. An empty neighbour list still yields one
      token, the newline, which atoi reads as 0, giving the index -1. */
  lemma ParseRendered(v: nat, adjs: seq<nat>)
    ensures ParseLine(Render(v, adjs)) == Some((v - 1, if adjs == [] then [-1] else ToIndices(adjs)))
  {
    var y := JoinDecimal(adjs) + ['\n'];
    assert Render(v, adjs) == Decimal(v) + [':'] + y;
    ParseNumeralHead(v, y);
    if adjs == [] {
      assert y == ['\n'];
      NeighboursOfNewline();
    } else {
      NeighboursOfJoin(adjs);
    }
  }

  /** The edges of a rendered line are those of its vertex and neighbours. */
  lemma EdgesOfRendered(n: int, v: nat, adjs: seq<nat>)
    ensures EdgesOfLine(n, Render(v, adjs)) ==
      LineEdges(n, v - 1, if adjs == [] then [-1] else ToIndices(adjs))
  {
    ParseRendered(v, adjs);
    EdgesOfParsedLine(n, Render(v, adjs), v - 1, if adjs == [] then [-1] else ToIndices(adjs));
  }

  /** The edges of a rendered line whose numbers all lie in [1, n] are the
      pairs between its vertex and each listed neighbour, both ways. */
  lemma RenderedLineEdges(n: int, v: nat, adjs: seq<nat>, i: int, j: int)
    requires 1 <= v <= n
    requires forall t | 0 <= t < |adjs| :: 1 <= adjs[t] <= n
    ensures (i, j) in EdgesOfLine(n, Render(v, adjs)) <==>
      exists t | 0 <= t < |adjs| :: (i == v - 1 && j == adjs[t] - 1) || (i == adjs[t] - 1 && j == v - 1)
  {
    EdgesOfRendered(n, v, adjs);
    if adjs == [] {
      LineEdgesMembership(n, v - 1, [-1], i, j);
    } else {
      ToIndicesAt(adjs);
      LineEdgesMembership(n, v - 1, ToIndices(adjs), i, j);
    }
  }

  lemma {:induction false} ToIndicesAt(adjs: seq<nat>)
    ensures |ToIndices(adjs)| == |adjs|
    ensures forall t | 0 <= t < |adjs| :: ToIndices(adjs)[t] == adjs[t] as int - 1
    decreases |adjs|
  {
    if adjs != [] {
      ToIndicesAt(adjs[1..]);
    }
  }

  // ---------------------------------------------------------------------
  // The loader
  // ---------------------------------------------------------------------

  /** Appending a line adds its edges. */
  lemma EdgesSnoc(n: int, lines: seq<string>, li: int)
    requires 0 <= li < |lines|
    ensures Edges(n, lines[..li + 1]) == Edges(n, lines[..li]) + EdgesOfLine(n, lines[li])
  {
    assert lines[..li + 1][..li] == lines[..li];
  }

  /** Appending a neighbour adds its edges. */
  lemma LineEdgesSnoc(n: int, v: int, adjs: seq<int>, a: int)
    ensures LineEdges(n, v, adjs + [a]) ==
      LineEdges(n, v, adjs) + (if 0 <= a < n then {(v, a), (a, v)} else {})
  {
    assert (adjs + [a])[..|adjs|] == adjs;
  }

  /** ParseLine of a line whose first ':'-token is known. */
  lemma ParseLineOf(line: string, token: string, rest: string)
    requires NextToken(line, ':') == Some((token, rest))
    ensures ParseLine(line) == Some((Atoi(token) - 1, Neighbours(rest)))
  {
  }

  lemma EdgesOfParsedLine(n: int, line: string, v: int, adjs: seq<int>)
    requires ParseLine(line) == Some((v, adjs))
    ensures EdgesOfLine(n, line) == LineEdges(n, v, adjs)
  {
  }

  lemma SafeParsedLine(n: int, line: string, v: int, adjs: seq<int>)
    requires ParseLine(line) == Some((v, adjs)) && SafeLine(n, line)
    ensures forall j | 0 <= j < |adjs| :: 0 <= adjs[j] < n ==> 0 <= v < n
  {
  }

  /** One more token consumed from the neighbour list. */
  lemma NeighboursAdvance(adjs: seq<int>, done: seq<int>, tail: string, token: string, rest: string)
    requires adjs == done + Neighbours(tail)
    requires NextToken(tail, ',') == Some((token, rest))
    ensures |done| < |adjs| && adjs[|done|] == Atoi(token) - 1
    ensures adjs == (done + [Atoi(token) - 1]) + Neighbours(rest)
  {
    NeighboursStep(tail, token, rest);
  }

  /** The inner loop of crearGrafoDesdeArchivo: every ','-token that
      strtok returns from `rest` is a neighbour of `vertice`; both cells are
      set when it names a vertex. Exactly the cells of the edges the tokens
      give become 1. */
  method InsertNeighbours(g: Graph, vertice: int, rest: string)
    requires g.Valid()
    requires forall j | 0 <= j < |Neighbours(rest)| ::
      0 <= Neighbours(rest)[j] < g.vertices ==> 0 <= vertice < g.vertices
    modifies g.adj
    ensures forall i, j | 0 <= i < g.vertices && 0 <= j < g.vertices ::
      g.adj[i, j] == if (i, j) in LineEdges(g.vertices, vertice, Neighbours(rest)) then 1 else old(g.adj[i, j])
  {
    var n := g.vertices;
    ghost var adjs := Neighbours(rest);
    var tail := rest;
    var token := NextToken(tail, ',');   // strtok(NULL, ",")
    ghost var done: seq<int> := [];
    while token.Some?
      invariant token == NextToken(tail, ',')
      invariant adjs == done + Neighbours(tail)
      invariant forall i, j | 0 <= i < n && 0 <= j < n ::
        g.adj[i, j] == if (i, j) in LineEdges(n, vertice, done) then 1 else old(g.adj[i, j])
      decreases |tail|
    {
      var adyacente := Atoi(token.value.0) - 1;
      NeighboursAdvance(adjs, done, tail, token.value.0, token.value.1);
      g.InsertNeighbour(vertice, adyacente);
      LineEdgesSnoc(n, vertice, done, adyacente);
      done := done + [adyacente];
      tail := token.value.1;
      token := NextToken(tail, ',');   // strtok(NULL, ",")
    }
    assert Neighbours(tail) == [];
    assert done == adjs;
  }

  /** The body of the loop over lines in crearGrafoDesdeArchivo: split off
      the source vertex at ':' and insert the neighbours that follow. The
      cells of the line's edges become 1; no other cell changes. */
  method InsertLine(g: Graph, line: string)
    requires g.Valid() && SafeLine(g.vertices, line)
    modifies g.adj
    ensures forall i, j | 0 <= i < g.vertices && 0 <= j < g.vertices ::
      g.adj[i, j] == if (i, j) in EdgesOfLine(g.vertices, line) then 1 else old(g.adj[i, j])
  {
    var first := NextToken(line, ':');   // strtok(linea, ":")
    if first.Some? {
      var vertice := Atoi(first.value.0) - 1;
      ParseLineOf(line, first.value.0, first.value.1);
      EdgesOfParsedLine(g.vertices, line, vertice, Neighbours(first.value.1));
      SafeParsedLine(g.vertices, line, vertice, Neighbours(first.value.1));
      InsertNeighbours(g, vertice, first.value.1);
    } else {
      assert EdgesOfLine(g.vertices, line) == {};
    }
  }

  /** crearGrafoDesdeArchivo once the vertex count `n` and the lines are
      read: a zeroed n-by-n matrix in which exactly the cells of Edges hold 1.
      The result is symmetric and every cell is 0 or 1. */
  method LoadFromLines(n: nat, lines: seq<string>) returns (g: Graph)
    requires SafeLines(n, lines)
    ensures fresh(g) && fresh(g.adj) && g.Valid() && g.vertices == n
    ensures forall i, j | 0 <= i < n && 0 <= j < n ::
      g.adj[i, j] == if (i, j) in Edges(n, lines) then 1 else 0
    ensures g.Symmetric() && g.Binary()
  {
    g := new Graph(n);
    var li := 0;
    while li < |lines|
      invariant 0 <= li <= |lines|
      invariant fresh(g.adj) && g.Valid() && g.vertices == n
      invariant forall i, j | 0 <= i < n && 0 <= j < n ::
        g.adj[i, j] == if (i, j) in Edges(n, lines[..li]) then 1 else 0
    {
      EdgesSnoc(n, lines, li);
      InsertLine(g, lines[li]);
      li := li + 1;
    }
    assert lines[..li] == lines;
    forall i, j | 0 <= i < n && 0 <= j < n
      ensures g.adj[i, j] == g.adj[j, i]
    {
      EdgesSymmetric(n, lines, i, j);
    }
  }
}
