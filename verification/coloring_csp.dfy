/**
 * `GraphColoring`: vertices coloured in order by backtracking on an array
 * that starts at 0 (uncoloured); each vertex tries colours 1 to numColors
 * and takes one no neighbour already has. The graph is an adjacency
 * matrix in which 1 marks an edge.
 */
module ColoringCsp {
  import opened Backtrack

  type Matrix = seq<seq<int>>

  /** Every row of the matrix has one entry per vertex. */
  predicate Square(g: Matrix)
  {
    forall v :: 0 <= v < |g| ==> |g[v]| == |g|
  }

  /** The loop of `isSafe(vertex, color)` from vertex `i` on: no vertex
      from `i` that `vertex` has an edge to already has `color`. */
  function SafeFrom(g: Matrix, col: seq<int>, vertex: nat, color: int, i: nat): (b: bool)
    requires Square(g) && vertex < |g| == |col| && i <= |g|
    ensures b <==> forall j :: i <= j < |g| ==> !(g[vertex][j] == 1 && col[j] == color)
    decreases |g| - i
  {
    if i == |g| then true
    else if g[vertex][i] == 1 && col[i] == color then false
    else SafeFrom(g, col, vertex, color, i + 1)
  }

  /** `isSafe(vertex, color)`. */
  function IsSafe(g: Matrix, col: seq<int>, vertex: nat, color: int): bool
    requires Square(g) && vertex < |g| == |col|
  {
    SafeFrom(g, col, vertex, color, 0)
  }

  /** The solver's rules: one slot per vertex, blank 0, colours 1 to
      `colors`, `isSafe`, and every full array accepted. */
  function Rules(g: Matrix, colors: int): Problem
  {
    Problem(|g|, 0, Range(1, colors + 1),
      (a: seq<int>, v: nat, c: int) => Square(g) && v < |g| == |a| && IsSafe(g, a, v, c),
      (a: seq<int>) => true)
  }

  /** `new int[numVertices]`: every vertex uncoloured. */
  function Uncoloured(g: Matrix): (a: seq<int>)
    ensures |a| == |g| && forall v :: 0 <= v < |a| ==> a[v] == 0
  {
    seq(|g|, _ => 0)
  }

  /** Every vertex has a colour from 1 to `colors` and differs from every
      earlier vertex it has an edge to: what the solver checks. */
  predicate Respects(g: Matrix, colors: int, t: seq<int>)
    requires Square(g)
  {
    && |t| == |g|
    && (forall v :: 0 <= v < |t| ==> 1 <= t[v] <= colors)
    && (forall v, u :: 0 <= u < v < |t| && g[v][u] == 1 ==> t[u] != t[v])
  }

  /** The matrix is undirected. */
  predicate Symmetric(g: Matrix)
  {
    Square(g) && forall u, v :: 0 <= u < |g| && 0 <= v < |g| ==> g[u][v] == g[v][u]
  }

  /** A proper colouring with colours 1 to `colors`: vertices joined by an
      edge differ (a vertex's edge to itself is not checked). */
  predicate Proper(g: Matrix, colors: int, t: seq<int>)
    requires Square(g)
  {
    && |t| == |g|
    && (forall v :: 0 <= v < |t| ==> 1 <= t[v] <= colors)
    && (forall u, v :: 0 <= u < |t| && 0 <= v < |t| && u != v && g[u][v] == 1 ==> t[u] != t[v])
  }

  /** On an undirected matrix, checking each vertex against the earlier
      ones is checking every edge. */
  lemma RespectsIsProper(g: Matrix, colors: int, t: seq<int>)
    requires Symmetric(g)
    ensures Respects(g, colors, t) <==> Proper(g, colors, t)
  {
    if Respects(g, colors, t) {
      forall u, v | 0 <= u < |t| && 0 <= v < |t| && u != v && g[u][v] == 1
        ensures t[u] != t[v]
      {
        if v < u {
          assert g[u][v] == 1;
        } else {
          assert g[v][u] == 1;
        }
      }
    }
  }

  /** The completions the solver looks for from the uncoloured array are
      exactly the colourings that respect every edge to an earlier vertex:
      uncoloured vertices hold 0, which no colour equals. */
  lemma SolutionsRespect(g: Matrix, colors: int, t: seq<int>)
    requires Square(g)
    ensures Solution(Rules(g, colors), Uncoloured(g), 0, t) <==> Respects(g, colors, t)
  {
    var p := Rules(g, colors);
    if |t| == |g| && forall v :: 0 <= v < |t| ==> 1 <= t[v] <= colors {
      forall v | 0 <= v < |g|
        ensures p.safe(Stage(p, t, v), v, t[v]) <==> forall u :: 0 <= u < v && g[v][u] == 1 ==> t[u] != t[v]
      {
        var s := Stage(p, t, v);
        assert p.safe(s, v, t[v]) == SafeFrom(g, s, v, t[v], 0);
        forall j | 0 <= j < |g|
          ensures s[j] == if j < v then t[j] else 0
        {
          if j < v {
            assert s[j] == s[..v][j];
          }
        }
      }
    }
    if Solution(p, Uncoloured(g), 0, t) {
      forall v, u | 0 <= u < v < |t| && g[v][u] == 1
        ensures t[u] != t[v]
      {
        assert p.safe(Stage(p, t, v), v, t[v]);
      }
    }
  }

  /** `solve(0)` on the uncoloured array: it succeeds exactly when a
      colouring respecting the edges exists, leaves the lexicographically
      first one (colours are tried in increasing order), and on failure
      leaves every vertex uncoloured. */
  lemma SolveColoring(g: Matrix, colors: int)
    requires Square(g)
    ensures var r := Solve(Rules(g, colors), Uncoloured(g), 0);
      && (r.0 <==> exists t :: Respects(g, colors, t))
      && (r.0 ==> Respects(g, colors, r.1) && forall t :: Respects(g, colors, t) ==> LexLe(r.1, t))
      && (!r.0 ==> r.1 == Uncoloured(g))
  {
    var r := Solve(Rules(g, colors), Uncoloured(g), 0);
    SolveFirst(Rules(g, colors), Uncoloured(g), 0);
    SolutionsRespect(g, colors, r.1);
    forall t | Respects(g, colors, t)
      ensures r.0 && LexLe(r.1, t)
    {
      SolutionsRespect(g, colors, t);
    }
  }

  /** The program's graph: vertex 0 joined to 1, 2 and 3, and 2 to 1 and 3. */
  const Sample: Matrix := [[0, 1, 1, 1], [1, 0, 1, 0], [1, 1, 0, 1], [1, 0, 1, 0]]

  /** The sample matrix is undirected, and 1, 2, 3, 2 colours it. */
  lemma SampleProper()
    ensures Symmetric(Sample) && Respects(Sample, 3, [1, 2, 3, 2])
  {
  }

  /** With three colours the program colours the sample 1, 2, 3, 2: that
      colouring respects the edges, and every other comes no earlier. */
  lemma SampleColoring()
    ensures Solve(Rules(Sample, 3), Uncoloured(Sample), 0) == (true, [1, 2, 3, 2])
  {
    var s := [1, 2, 3, 2];
    SampleProper();
    SolveColoring(Sample, 3);
    var r := Solve(Rules(Sample, 3), Uncoloured(Sample), 0);
    assert r.0 && Respects(Sample, 3, r.1);
    SampleFirst(r.1);
    LexLeAntisymmetric(r.1, s);
  }

  /** Every colouring of the sample comes no earlier than 1, 2, 3, 2. */
  lemma SampleFirst(t: seq<int>)
    requires Respects(Sample, 3, t)
    ensures LexLe([1, 2, 3, 2], t)
  {
    var s := [1, 2, 3, 2];
    assert Sample[1][0] == 1 && Sample[2][0] == 1 && Sample[2][1] == 1 && Sample[3][0] == 1 && Sample[3][2] == 1;
    if t[0] != 1 {
      assert s[..0] == t[..0];
    } else if t[1] != 2 {
      assert s[..1] == t[..1];
    } else if t[2] != 3 {
      assert false;
    } else if t[3] != 2 {
      assert false;
    } else {
      assert t == s;
    }
  }
}
