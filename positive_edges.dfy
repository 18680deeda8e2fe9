/**
 * The positive-edge generator (streamlit_app.py:79-88): a rejection-sampling loop
 * that draws node pairs until it holds NumPositiveEdges distinct undirected edges,
 * then lists them and transposes the list into a 2 x N edge index.
 *
 * `random.randint(0, num_nodes - 1)` is modelled as a finite stream of draws, each
 * in [0, NumNodes - 1], read through a cursor. The source's stream never ends; a
 * finite prefix that ends before the set is full yields `Exhausted`, which stands
 * for "the source would still be drawing".
 */
module PositiveEdges {
  import opened Config

  /** A stored edge `tuple(sorted((i, j)))`. */
  type Edge = (int, int)

  /** What the generator ends with on a finite stream. */
  datatype Generation =
    | Generated(edges: set<Edge>, used: nat)   // the loop exited after reading `used` draws
    | Exhausted(edges: set<Edge>)              // the prefix ran out while the set was still short

  /** `randint` is inclusive at both ends: every draw is a valid node index. */
  predicate ValidDraws(draws: seq<int>) {
    forall k :: 0 <= k < |draws| ==> 0 <= draws[k] < NumNodes
  }

  /** A normalised edge between two distinct valid nodes. */
  predicate ValidEdge(e: Edge) {
    0 <= e.0 < e.1 < NumNodes
  }

  /** Invariant of the set while the loop runs: bounded size, only valid edges. */
  predicate EdgeSetInvariant(s: set<Edge>) {
    |s| <= NumPositiveEdges && forall e :: e in s ==> ValidEdge(e)
  }

  /** `tuple(sorted((i, j)))`. */
  function Normalise(i: int, j: int): (e: Edge)
    ensures e.0 <= e.1
    ensures {e.0, e.1} == {i, j}
  {
    if i <= j then (i, j) else (j, i)
  }

  /** The effect of one iteration's `if i != j: positive_edges.add(...)` on the set. */
  function AddDraw(s: set<Edge>, i: int, j: int): set<Edge> {
    if i != j then s + {Normalise(i, j)} else s
  }

  /**
   * The loop as a function of the stream: `Run(draws, cursor, s)` is what the loop
   * ends with when it reaches its guard with set `s` and `cursor` draws consumed.
   */
  function Run(draws: seq<int>, cursor: nat, s: set<Edge>): Generation
    requires cursor <= |draws|
    decreases |draws| - cursor
  {
    if |s| >= NumPositiveEdges then Generated(s, cursor)
    else if cursor + 2 > |draws| then Exhausted(s)
    else Run(draws, cursor + 2, AddDraw(s, draws[cursor], draws[cursor + 1]))
  }

  /** The set of edges the pair draws of a stream offer: every non-self pair, normalised. */
  function Pairs(draws: seq<int>): set<Edge>
    decreases |draws|
  {
    if |draws| < 2 then {} else AddDraw(Pairs(draws[2..]), draws[0], draws[1])
  }

  // ---------------------------------------------------------------- one step

  /** Either order of the two draws gives the same edge. */
  lemma NormaliseSymmetric(i: int, j: int)
    ensures Normalise(i, j) == Normalise(j, i)
  {
  }

  /** Two distinct valid nodes give a valid edge with first < second. */
  lemma NormaliseValid(i: int, j: int)
    requires 0 <= i < NumNodes && 0 <= j < NumNodes && i != j
    ensures ValidEdge(Normalise(i, j))
  {
  }

  /** One iteration grows the set by at most one edge and never removes one. */
  lemma AddDrawGrowsByAtMostOne(s: set<Edge>, i: int, j: int)
    ensures s <= AddDraw(s, i, j)
    ensures |AddDraw(s, i, j)| <= |s| + 1
  {
  }

  /** A self-pair or an already stored pair leaves the set unchanged; any other draw adds exactly one edge. */
  lemma AddDrawUnchanged(s: set<Edge>, i: int, j: int)
    ensures AddDraw(s, i, j) == s <==> (i == j || Normalise(i, j) in s)
    ensures AddDraw(s, i, j) != s ==> |AddDraw(s, i, j)| == |s| + 1
  {
    if i != j && Normalise(i, j) !in s {
      assert Normalise(i, j) in AddDraw(s, i, j);
    }
  }

  /** One iteration on valid draws keeps every stored edge valid. */
  lemma AddDrawValid(s: set<Edge>, i: int, j: int)
    requires forall e :: e in s ==> ValidEdge(e)
    requires 0 <= i < NumNodes && 0 <= j < NumNodes
    ensures forall e :: e in AddDraw(s, i, j) ==> ValidEdge(e)
  {
    if i != j {
      NormaliseValid(i, j);
    }
  }

  // ---------------------------------------------------------------- the whole loop

  lemma {:induction false} PairsValid(draws: seq<int>)
    requires ValidDraws(draws)
    ensures forall e :: e in Pairs(draws) ==> ValidEdge(e)
    decreases |draws|
  {
    if |draws| >= 2 {
      PairsValid(draws[2..]);
      AddDrawValid(Pairs(draws[2..]), draws[0], draws[1]);
    }
  }

  /** Adding a pair to the accumulated set commutes with the pairs still to come. */
  lemma AddDrawUnion(s: set<Edge>, i: int, j: int, rest: set<Edge>)
    ensures AddDraw(s, i, j) + rest == s + AddDraw(rest, i, j)
  {
  }

  /** Shape of the loop's exit: it reads whole pairs, never past the stream, and stops at exactly NumPositiveEdges. */
  lemma {:induction false} RunShape(draws: seq<int>, cursor: nat, s: set<Edge>)
    requires cursor <= |draws|
    requires |s| <= NumPositiveEdges
    ensures s <= Run(draws, cursor, s).edges
    ensures |Run(draws, cursor, s).edges| <= NumPositiveEdges
    ensures Run(draws, cursor, s).Generated? ==>
      |Run(draws, cursor, s).edges| == NumPositiveEdges &&
      cursor <= Run(draws, cursor, s).used <= |draws| &&
      (Run(draws, cursor, s).used - cursor) % 2 == 0
    decreases |draws| - cursor
  {
    if |s| < NumPositiveEdges && cursor + 2 <= |draws| {
      AddDrawGrowsByAtMostOne(s, draws[cursor], draws[cursor + 1]);
      RunShape(draws, cursor + 2, AddDraw(s, draws[cursor], draws[cursor + 1]));
    }
  }

  /** On valid draws the loop only ever stores valid edges. */
  lemma {:induction false} RunKeepsInvariant(draws: seq<int>, cursor: nat, s: set<Edge>)
    requires cursor <= |draws|
    requires ValidDraws(draws)
    requires EdgeSetInvariant(s)
    ensures EdgeSetInvariant(Run(draws, cursor, s).edges)
    decreases |draws| - cursor
  {
    RunShape(draws, cursor, s);
    if |s| < NumPositiveEdges && cursor + 2 <= |draws| {
      var s' := AddDraw(s, draws[cursor], draws[cursor + 1]);
      AddDrawGrowsByAtMostOne(s, draws[cursor], draws[cursor + 1]);
      AddDrawValid(s, draws[cursor], draws[cursor + 1]);
      RunKeepsInvariant(draws, cursor + 2, s');
    }
  }

  /**
   * What the loop ends with is determined by the pairs it reads: running out means the
   * set is everything the rest of the stream offers and is still short; finishing means
   * the set is what the pairs up to the exit point offer.
   */
  lemma {:induction false} RunContents(draws: seq<int>, cursor: nat, s: set<Edge>)
    requires cursor <= |draws|
    requires |s| <= NumPositiveEdges
    ensures Run(draws, cursor, s).Exhausted? ==>
      Run(draws, cursor, s).edges == s + Pairs(draws[cursor..]) &&
      |s + Pairs(draws[cursor..])| < NumPositiveEdges
    ensures Run(draws, cursor, s).Generated? ==>
      cursor <= Run(draws, cursor, s).used <= |draws| &&
      Run(draws, cursor, s).edges == s + Pairs(draws[cursor..Run(draws, cursor, s).used]) &&
      Run(draws, cursor, s).edges <= s + Pairs(draws[cursor..])
    decreases |draws| - cursor
  {
    var r := Run(draws, cursor, s);
    if |s| >= NumPositiveEdges {
      assert draws[cursor..cursor] == [];
    } else if cursor + 2 > |draws| {
      assert |draws[cursor..]| < 2;
    } else {
      var i, j := draws[cursor], draws[cursor + 1];
      var s' := AddDraw(s, i, j);
      AddDrawGrowsByAtMostOne(s, i, j);
      RunContents(draws, cursor + 2, s');
      assert draws[cursor..][2..] == draws[cursor + 2..];
      AddDrawUnion(s, i, j, Pairs(draws[cursor + 2..]));
      if r.Generated? {
        var u := r.used;
        assert draws[cursor..u][2..] == draws[cursor + 2..u];
        assert draws[cursor..u][0] == i && draws[cursor..u][1] == j;
        AddDrawUnion(s, i, j, Pairs(draws[cursor + 2..u]));
      }
    }
  }

  /** The loop stops at the first pair that fills the set: one pair earlier it was still short. */
  lemma {:induction false} RunStopsAtFirstFull(draws: seq<int>, cursor: nat, s: set<Edge>)
    requires cursor <= |draws|
    requires |s| <= NumPositiveEdges
    requires Run(draws, cursor, s).Generated?
    requires Run(draws, cursor, s).used > cursor
    ensures cursor + 2 <= Run(draws, cursor, s).used <= |draws|
    ensures |s + Pairs(draws[cursor..Run(draws, cursor, s).used - 2])| < NumPositiveEdges
    decreases |draws| - cursor
  {
    var i, j := draws[cursor], draws[cursor + 1];
    var s' := AddDraw(s, i, j);
    var u := Run(draws, cursor, s).used;
    AddDrawGrowsByAtMostOne(s, i, j);
    RunShape(draws, cursor + 2, s');
    if u == cursor + 2 {
      assert draws[cursor..u - 2] == [];
    } else {
      RunStopsAtFirstFull(draws, cursor + 2, s');
      assert draws[cursor..u - 2][2..] == draws[cursor + 2..u - 2];
      AddDrawUnion(s, i, j, Pairs(draws[cursor + 2..u - 2]));
    }
  }

  lemma SubsetCardinality(a: set<Edge>, b: set<Edge>)
    requires a <= b
    ensures |a| <= |b|
  {
    assert b == a + (b - a);
  }

  /**
   * The loop finishes on a stream exactly when the stream's pair draws offer at least
   * NumPositiveEdges distinct normalised non-self edges.
   */
  lemma FinishesIff(draws: seq<int>)
    ensures Run(draws, 0, {}).Generated? <==> |Pairs(draws)| >= NumPositiveEdges
  {
    RunContents(draws, 0, {});
    RunShape(draws, 0, {});
    assert draws[0..] == draws;
    var r := Run(draws, 0, {});
    if r.Generated? {
      SubsetCardinality(r.edges, Pairs(draws));
    }
  }

  // ---------------------------------------------------------------- the loop can always finish

  /** The edges (a, k) for k from `from` up to the last node. */
  function Row(a: int, from: nat): set<Edge>
    decreases NumNodes - from
  {
    if from >= NumNodes then {} else {(a, from)} + Row(a, from + 1)
  }

  lemma {:induction false} RowFacts(a: int, from: nat)
    requires from <= NumNodes
    ensures |Row(a, from)| == NumNodes - from
    ensures forall e :: e in Row(a, from) ==> e.0 == a && from <= e.1 < NumNodes
    decreases NumNodes - from
  {
    if from < NumNodes {
      RowFacts(a, from + 1);
    }
  }

  lemma DifferenceCardinality(c: set<Edge>, s: set<Edge>)
    ensures |c| <= |c - s| + |s|
  {
    var common := c * s;
    SubsetCardinality(common, s);
    assert c == (c - s) + common;
    assert (c - s) !! common;
  }

  /** Edges leaving two different nodes are disjoint sets, so their sizes add up. */
  lemma DisjointRows(first: set<Edge>, second: set<Edge>, a: int, b: int)
    requires a != b
    requires forall e :: e in first ==> e.0 == a
    requires forall e :: e in second ==> e.0 == b
    ensures |first + second| == |first| + |second|
  {
    assert first !! second;
  }

  /** Two rows of the edge space together: the edges (a, k) and (b, k) past their starting nodes. */
  lemma TwoRows(a: nat, b: nat) returns (c: set<Edge>)
    requires a < b < NumNodes
    ensures |c| == 2 * NumNodes - a - b - 2
    ensures forall x :: x in c ==> ValidEdge(x)
  {
    var first, second := Row(a, a + 1), Row(b, b + 1);
    RowFacts(a, a + 1);
    RowFacts(b, b + 1);
    DisjointRows(first, second, a, b);
    c := first + second;
  }

  /** Fewer than NumPositiveEdges valid edges never exhaust the space: some valid edge is missing. */
  lemma MissingEdge(s: set<Edge>) returns (e: Edge)
    requires |s| < NumPositiveEdges
    ensures ValidEdge(e) && e !in s
  {
    var c := TwoRows(0, 1);
    DifferenceCardinality(c, s);
    assert c - s != {};
    e :| e in c - s;
  }

  /** The loop's behaviour depends only on the draws it has not read yet. */
  lemma {:induction false} RunShift(prefix: seq<int>, draws: seq<int>, cursor: nat, s: set<Edge>)
    requires cursor <= |draws|
    ensures Run(prefix + draws, |prefix| + cursor, s).Generated? == Run(draws, cursor, s).Generated?
    ensures Run(prefix + draws, |prefix| + cursor, s).edges == Run(draws, cursor, s).edges
    decreases |draws| - cursor
  {
    if |s| < NumPositiveEdges && cursor + 2 <= |draws| {
      var d := prefix + draws;
      assert d[|prefix| + cursor] == draws[cursor] && d[|prefix| + cursor + 1] == draws[cursor + 1];
      RunShift(prefix, draws, cursor + 2, AddDraw(s, draws[cursor], draws[cursor + 1]));
    }
  }

  /**
   * From any state the loop can reach, some stream of valid draws makes it finish, after
   * exactly one pair per missing edge. The lemma shows only that such a stream exists;
   * it exists because the space of edges is larger than NumPositiveEdges.
   */
  lemma {:induction false} CompletingStream(s: set<Edge>) returns (draws: seq<int>)
    requires EdgeSetInvariant(s)
    ensures ValidDraws(draws)
    ensures |draws| == 2 * (NumPositiveEdges - |s|)
    ensures Run(draws, 0, s).Generated?
    decreases NumPositiveEdges - |s|
  {
    if |s| == NumPositiveEdges {
      draws := [];
    } else {
      var e := MissingEdge(s);
      var s' := s + {e};
      var rest := CompletingStream(s');
      draws := [e.0, e.1] + rest;
      assert Normalise(e.0, e.1) == e;
      RunShift([e.0, e.1], rest, 0, s');
    }
  }

  // ---------------------------------------------------------------- the imperative loop

  /** Everything the loop promises, stated of its run from the empty set at the start of the stream. */
  lemma GenerationFacts(draws: seq<int>)
    requires ValidDraws(draws)
    ensures EdgeSetInvariant(Run(draws, 0, {}).edges)
    ensures Run(draws, 0, {}).Generated? <==> |Pairs(draws)| >= NumPositiveEdges
    ensures Run(draws, 0, {}).Generated? ==>
      |Run(draws, 0, {}).edges| == NumPositiveEdges &&
      Run(draws, 0, {}).used <= |draws| && Run(draws, 0, {}).used % 2 == 0 &&
      Run(draws, 0, {}).edges == Pairs(draws[..Run(draws, 0, {}).used])
    ensures Run(draws, 0, {}).Exhausted? ==> Run(draws, 0, {}).edges == Pairs(draws)
  {
    var g := Run(draws, 0, {});
    RunShape(draws, 0, {});
    RunKeepsInvariant(draws, 0, {});
    RunContents(draws, 0, {});
    FinishesIff(draws);
    assert draws[0..] == draws;
    if g.Generated? {
      assert draws[0..g.used] == draws[..g.used];
    }
  }

  /**
   * Lines 80-86: `while len(positive_edges) < 30`, two `randint` draws per
   * iteration, rejection of self-pairs, normalised insertion.
   */
  method GeneratePositiveEdges(draws: seq<int>) returns (g: Generation)
    requires ValidDraws(draws)
    ensures g == Run(draws, 0, {})
    ensures EdgeSetInvariant(g.edges)
    ensures g.Generated? <==> |Pairs(draws)| >= NumPositiveEdges
    ensures g.Generated? ==> |g.edges| == NumPositiveEdges && g.used <= |draws| && g.used % 2 == 0
    ensures g.Generated? ==> g.edges == Pairs(draws[..g.used])
    ensures g.Exhausted? ==> g.edges == Pairs(draws)
  {
    var positiveEdges: set<Edge> := {};
    var cursor: nat := 0;
    while |positiveEdges| < NumPositiveEdges && cursor + 2 <= |draws|
      invariant cursor <= |draws|
      invariant Run(draws, cursor, positiveEdges) == Run(draws, 0, {})
      decreases |draws| - cursor
    {
      var i := draws[cursor];
      var j := draws[cursor + 1];
      cursor := cursor + 2;
      if i != j {
        var edge := Normalise(i, j);
        positiveEdges := positiveEdges + {edge};
      }
    }
    if |positiveEdges| >= NumPositiveEdges {
      g := Generated(positiveEdges, cursor);
    } else {
      g := Exhausted(positiveEdges);
    }
    GenerationFacts(draws);
  }

  // ---------------------------------------------------------------- list(...) and edge_index

  /** `list(positive_edges)`: some ordering of the set's elements, each exactly once. */
  predicate IsListing(xs: seq<Edge>, s: set<Edge>) {
    multiset(xs) == multiset(s)
  }

  /**
   * Line 87. The order Python's set iteration produces is implementation-defined, so the
   * method promises only that the list is a listing of the set.
   */
  method ListEdges(s: set<Edge>) returns (xs: seq<Edge>)
    ensures IsListing(xs, s)
  {
    xs := [];
    var rest := s;
    while rest != {}
      invariant rest <= s
      invariant multiset(xs) == multiset(s - rest)
      decreases |rest|
    {
      var e :| e in rest;
      assert s - (rest - {e}) == (s - rest) + {e};
      xs := xs + [e];
      rest := rest - {e};
    }
    assert s - rest == s;
  }

  /** A listing has as many entries as the set, holds exactly its elements, and repeats none. */
  lemma ListingFacts(xs: seq<Edge>, s: set<Edge>)
    requires IsListing(xs, s)
    ensures |xs| == |s|
    ensures forall k :: 0 <= k < |xs| ==> xs[k] in s
    ensures forall e :: e in s ==> e in xs
    ensures forall a, b :: 0 <= a < b < |xs| ==> xs[a] != xs[b]
  {
    assert |multiset(xs)| == |xs|;
    forall k | 0 <= k < |xs| ensures xs[k] in s {
      assert xs[k] in multiset(xs);
    }
    forall e | e in s ensures e in xs {
      assert e in multiset(s);
    }
    forall a, b | 0 <= a < b < |xs| ensures xs[a] != xs[b] {
      MultiplicityOfRepeat(xs, a, b);
    }
  }

  /** An element stored at two positions occurs at least twice in the multiset. */
  lemma MultiplicityOfRepeat(xs: seq<Edge>, a: nat, b: nat)
    requires a < b < |xs|
    ensures xs[a] == xs[b] ==> multiset(xs)[xs[a]] >= 2
  {
    assert xs == xs[..b] + xs[b..];
    assert xs[a] in multiset(xs[..b]) && xs[b] in multiset(xs[b..]);
  }

  /** Any two listings of one set are permutations of each other: only the order is left open. */
  lemma ListingsArePermutations(xs: seq<Edge>, ys: seq<Edge>, s: set<Edge>)
    requires IsListing(xs, s) && IsListing(ys, s)
    ensures multiset(xs) == multiset(ys)
    ensures |xs| == |ys|
  {
    ListingFacts(xs, s);
    ListingFacts(ys, s);
  }

  /** A matrix as a sequence of rows, every row of the given width. */
  predicate IsMatrix(m: seq<seq<int>>, width: nat) {
    forall r :: 0 <= r < |m| ==> |m[r]| == width
  }

  /** `torch.tensor(positive_edges)`: one row [i, j] per listed edge. */
  function EdgeRows(xs: seq<Edge>): (m: seq<seq<int>>)
    ensures |m| == |xs| && IsMatrix(m, 2)
    ensures forall k :: 0 <= k < |xs| ==> m[k] == [xs[k].0, xs[k].1]
  {
    seq(|xs|, k requires 0 <= k < |xs| => [xs[k].0, xs[k].1])
  }

  /** `.t()`: entry (r, c) of the result is entry (c, r) of the input. */
  function Transpose(m: seq<seq<int>>, width: nat): (t: seq<seq<int>>)
    requires IsMatrix(m, width)
    ensures |t| == width && IsMatrix(t, |m|)
    ensures forall r, c :: 0 <= r < width && 0 <= c < |m| ==> t[r][c] == m[c][r]
  {
    seq(width, r requires 0 <= r < width => seq(|m|, c requires 0 <= c < |m| => m[c][r]))
  }

  /** Transposing twice gives back the matrix, so `.t()` loses nothing. */
  lemma TransposeInvolution(m: seq<seq<int>>, width: nat)
    requires IsMatrix(m, width)
    ensures Transpose(Transpose(m, width), |m|) == m
  {
    var t := Transpose(m, width);
    var tt := Transpose(t, |m|);
    forall c | 0 <= c < |m| ensures tt[c] == m[c] {
      assert |tt[c]| == width == |m[c]|;
      forall r | 0 <= r < width ensures tt[c][r] == m[c][r] {
        assert tt[c][r] == t[r][c];
      }
    }
  }

  /** Line 88: the 2 x N edge index. */
  function EdgeIndex(xs: seq<Edge>): (ei: seq<seq<int>>)
    ensures |ei| == 2 && IsMatrix(ei, |xs|)
    ensures forall k :: 0 <= k < |xs| ==> ei[0][k] == xs[k].0 && ei[1][k] == xs[k].1
  {
    Transpose(EdgeRows(xs), 2)
  }

  /** What the two stream-driven lines 79-88 produce, once the loop has exited. */
  datatype PositiveEdgeData =
    | EdgeData(positiveEdges: seq<Edge>, edgeIndex: seq<seq<int>>)
    | StillSampling(partial: set<Edge>)

  /** The columns of the edge index are exactly the generated undirected edges, each once, each valid. */
  predicate IsEdgeIndexOf(ei: seq<seq<int>>, s: set<Edge>) {
    && |ei| == 2 && |ei[0]| == |s| && |ei[1]| == |s|
    && (forall k :: 0 <= k < |s| ==> 0 <= ei[0][k] < ei[1][k] < NumNodes)
    && (forall k :: 0 <= k < |s| ==> (ei[0][k], ei[1][k]) in s)
    && (forall e :: e in s ==> exists k :: 0 <= k < |s| && ei[0][k] == e.0 && ei[1][k] == e.1)
    && (forall a, b :: 0 <= a < b < |s| ==> (ei[0][a], ei[1][a]) != (ei[0][b], ei[1][b]))
  }

  /** Lines 79-88 end to end on a stream of draws. */
  method RegeneratePositiveEdges(draws: seq<int>) returns (d: PositiveEdgeData)
    requires ValidDraws(draws)
    ensures d.EdgeData? <==> |Pairs(draws)| >= NumPositiveEdges
    ensures d.EdgeData? ==>
      |d.positiveEdges| == NumPositiveEdges &&
      IsListing(d.positiveEdges, Run(draws, 0, {}).edges) &&
      d.edgeIndex == EdgeIndex(d.positiveEdges) &&
      IsEdgeIndexOf(d.edgeIndex, Run(draws, 0, {}).edges)
    ensures d.StillSampling? ==> d.partial == Pairs(draws)
  {
    var g := GeneratePositiveEdges(draws);
    if g.Exhausted? {
      return StillSampling(g.edges);
    }
    var xs := ListEdges(g.edges);
    ListingFacts(xs, g.edges);
    var ei := EdgeIndex(xs);
    forall e | e in g.edges
      ensures exists k :: 0 <= k < |g.edges| && ei[0][k] == e.0 && ei[1][k] == e.1
    {
      var k :| 0 <= k < |xs| && xs[k] == e;
    }
    d := EdgeData(xs, ei);
  }
}
