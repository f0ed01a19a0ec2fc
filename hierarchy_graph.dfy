/** The hierarchy graph builder: turns the base-class arrays of the RTTI
    tables into a directed graph whose edge (A, B) says "A is a base of B".

    A base-class array lists a class (element 0) followed by its bases in
    pre-order: every base is followed by its own `numContainedBases` bases.
    The walk visits every entry after element 0 once; the entry gets an edge
    to the first element of the sub-range it was found in, and a sub-range
    is opened to recurse into the entry's own bases. */
module HierarchyGraph {
  import opened Rtti
  import opened Numerals

  type Edge = (int, int)

  /** (child index, parent index) of one edge the walk adds. */
  type IndexPair = (nat, nat)

  /** A directed graph, as the builder mutates it: a node set and an edge set.
      Adding an edge adds its endpoints as nodes. */
  class DiGraph {
    var nodes: set<int>
    var edges: set<Edge>

    ghost predicate Valid()
      reads this
    {
      forall e :: e in edges ==> e.0 in nodes && e.1 in nodes
    }

    constructor ()
      ensures Valid() && nodes == {} && edges == {}
    {
      nodes := {};
      edges := {};
    }

    method AddNode(n: int)
      requires Valid()
      modifies this
      ensures Valid()
      ensures nodes == old(nodes) + {n} && edges == old(edges)
    {
      nodes := nodes + {n};
    }

    method AddEdge(u: int, v: int)
      requires Valid()
      modifies this
      ensures Valid()
      ensures nodes == old(nodes) + {u, v} && edges == old(edges) + {(u, v)}
    {
      nodes := nodes + {u, v};
      edges := edges + {(u, v)};
    }
  }

  function Max1(n: nat): nat
  {
    if n == 0 then 1 else n
  }

  /** The slice `arr[i:j]` as Python takes it, for a start inside the array
      and a positive end: an end past the array is clipped, an end at or
      before the start gives the empty slice. */
  function Slice(arr: seq<int>, i: nat, j: int): (s: seq<int>)
    requires i <= |arr| && j > 0
    ensures |s| == if j <= i then 0 else (if j < |arr| then j else |arr|) - i
    ensures forall k :: 0 <= k < |s| ==> s[k] == arr[i + k]
  {
    if j <= i then [] else if j < |arr| then arr[i..j] else arr[i..]
  }

  /** Every entry the walk looks up (all but element 0) has a count in
      `nb`, the decoded counts of the tables (`CountsOf`). */
  ghost predicate Walkable(nb: Counts, arr: seq<int>)
  {
    forall j :: 1 <= j < |arr| ==> arr[j] in nb
  }

  function Shift(ps: seq<IndexPair>, d: nat): (r: seq<IndexPair>)
    ensures |r| == |ps|
    ensures forall k :: 0 <= k < |ps| ==> r[k] == (ps[k].0 + d, ps[k].1 + d)
  {
    seq(|ps|, k requires 0 <= k < |ps| => (ps[k].0 + d, ps[k].1 + d))
  }

  /** Where the range of the entry at `i` ends, inside a range that ends at
      `e`: the entry's own `numContainedBases` entries follow it, clipped at
      `e`; a negative count gives an empty range. */
  function RangeEnd(nb: Counts, arr: seq<int>, i: nat, e: nat): (end: nat)
    requires Walkable(nb, arr) && 1 <= i < e <= |arr|
    ensures i < end <= e
  {
    var n := nb[arr[i]];
    if n < 0 then i + 1 else if i + n + 1 < e then i + n + 1 else e
  }

  /** The (child, parent) index pairs that the walk produces over indices
      `i` up to `e` of a range whose head is at `o`: each visited entry is
      linked to `o`, then the walk descends into the entry's own range and
      resumes after it. */
  function Scan(nb: Counts, arr: seq<int>, o: nat, e: nat, i: nat): seq<IndexPair>
    requires Walkable(nb, arr) && o < i <= e <= |arr|
    decreases e - i
  {
    if i == e then []
    else
      var end := RangeEnd(nb, arr, i, e);
      [(i, o)] + Scan(nb, arr, i, end, i + 1) + Scan(nb, arr, o, e, end)
  }

  /** The (child, parent) index pairs that walking the whole of `arr` produces. */
  function WalkPairs(nb: Counts, arr: seq<int>): seq<IndexPair>
    requires Walkable(nb, arr)
  {
    if |arr| == 0 then [] else Scan(nb, arr, 0, |arr|, 1)
  }

  /** The edges named by index pairs, as (base, derived) addresses. */
  function EdgesOf(arr: seq<int>, ps: seq<IndexPair>): set<Edge>
  {
    set k | 0 <= k < |ps| && ps[k].0 < |arr| && ps[k].1 < |arr| :: (arr[ps[k].0], arr[ps[k].1])
  }

  function WalkEdges(nb: Counts, arr: seq<int>): set<Edge>
    requires Walkable(nb, arr)
  {
    EdgesOf(arr, WalkPairs(nb, arr))
  }

  function EdgeNodes(es: set<Edge>): set<int>
  {
    (set e | e in es :: e.0) + (set e | e in es :: e.1)
  }

  /** The range declared by the entry at `p` covers index `c`; element 0
      covers the whole array. */
  ghost predicate Encloses(nb: Counts, arr: seq<int>, p: nat, c: nat)
  {
    p == 0 ||
    (p < |arr| && arr[p] in nb && c <= p + nb[arr[p]])
  }

  /** `p` is the innermost entry before `c` whose range covers `c`: the
      class that `arr[c]` is an immediate base of in the pre-order layout. */
  ghost predicate ImmediateDerived(nb: Counts, arr: seq<int>, p: nat, c: nat)
  {
    p < c < |arr| && Encloses(nb, arr, p, c) &&
    forall q: nat :: p < q < c ==> !Encloses(nb, arr, q, c)
  }

  /** The ranges of a well-formed base-class array nest: a range that starts
      inside another range ends inside it too. */
  ghost predicate WellNested(nb: Counts, arr: seq<int>)
    requires Walkable(nb, arr)
  {
    forall p, q ::
      1 <= p < q < |arr| &&
      q <= p + nb[arr[p]] ==>
      q + nb[arr[q]] <= p + nb[arr[p]]
  }

  // ---------------------------------------------------------------------
  // The walk, as the builder runs it on the graph

  /** Walks one (sub-)array, adding its edges to `g`; returns how far the
      scan got, which is the length of the array (at least 1). */
  method CreateBcdHierarchyRecursively(t: Tables, arr: seq<int>, g: DiGraph) returns (r: int)
    requires Walkable(CountsOf(t), arr) && g.Valid()
    modifies g
    decreases |arr|
    ensures g.Valid()
    ensures r == Max1(|arr|)
    ensures g.edges == old(g.edges) + WalkEdges(CountsOf(t), arr)
    ensures g.nodes == old(g.nodes) + EdgeNodes(WalkEdges(CountsOf(t), arr))
  {
    ghost var nb := CountsOf(t);
    var i: nat := 1;
    WalkStart(nb, arr, g.edges, g.nodes);
    while i < |arr|
      invariant g.Valid() && WalkedUpTo(nb, arr, i, old(g.edges), old(g.nodes), g.edges, g.nodes)
      decreases |arr| - i
    {
      ghost var edges0, nodes0 := g.edges, g.nodes;
      g.AddEdge(arr[i], arr[0]);
      CountOf(t, arr[i]);
      var next := GetNumberOfBaseClasses(t, arr[i]) + i + 1;
      ghost var i0 := i;
      if next > 0 {
        SliceWalkable(nb, arr, i, next);
        var step := CreateBcdHierarchyRecursively(t, Slice(arr, i, next), g);
        i := i + step;
        WalkSliceStep(nb, arr, i0, next, i, old(g.edges), old(g.nodes), edges0, nodes0, g.edges, g.nodes);
      } else {
        i := i + 1;
        WalkNoSliceStep(nb, arr, i0, next, i, old(g.edges), old(g.nodes), edges0, nodes0, g.edges, g.nodes);
      }
    }
    WalkEnd(nb, arr, i, old(g.edges), old(g.nodes), g.edges, g.nodes);
    r := i;
  }

  /** Adds one node per base-class descriptor. */
  method CreateAllBaseTypeNodes(t: Tables, g: DiGraph) returns (ok: bool)
    requires g.Valid()
    modifies g
    ensures g.Valid() && ok
    ensures g.nodes == old(g.nodes) + t.baseClassDescriptors.Keys
    ensures g.edges == old(g.edges)
  {
    var pending := t.baseClassDescriptors.Keys;
    while pending != {}
      invariant pending <= t.baseClassDescriptors.Keys
      invariant g.Valid() && g.edges == old(g.edges)
      invariant g.nodes == old(g.nodes) + (t.baseClassDescriptors.Keys - pending)
      decreases pending
    {
      HasElement(pending);
      var bcdAddr :| bcdAddr in pending;
      g.AddNode(bcdAddr);
      pending := pending - {bcdAddr};
    }
    ok := true;
  }

  /** Every base-class descriptor points to a hierarchy descriptor whose
      array the walk can read. */
  ghost predicate GraphReady(t: Tables)
  {
    forall k :: k in t.baseClassDescriptors ==>
      PointsToHierarchy(t, t.baseClassDescriptors[k]) &&
      Walkable(CountsOf(t), GetBaseClassArrayFromBcd(t, t.baseClassDescriptors[k]))
  }

  /** The edges contributed by walking the array of each descriptor in `ks`. */
  function EdgesFrom(t: Tables, ks: set<int>): set<Edge>
    requires GraphReady(t) && ks <= t.baseClassDescriptors.Keys
  {
    set k, e | k in ks && e in WalkEdges(CountsOf(t), GetBaseClassArrayFromBcd(t, t.baseClassDescriptors[k])) :: e
  }

  /** All edges of the hierarchy graph of the tables. */
  function HierarchyEdges(t: Tables): set<Edge>
    requires GraphReady(t)
  {
    EdgesFrom(t, t.baseClassDescriptors.Keys)
  }

  /** Builds the hierarchy graph: a node per base-class descriptor, then the
      edges of the array of every descriptor's hierarchy. */
  method CreateHierarchyGraph(t: Tables) returns (g: DiGraph)
    requires GraphReady(t)
    ensures fresh(g) && g.Valid()
    ensures g.edges == HierarchyEdges(t)
    ensures g.nodes == t.baseClassDescriptors.Keys + EdgeNodes(HierarchyEdges(t))
  {
    g := new DiGraph();
    var _ := CreateAllBaseTypeNodes(t, g);
    var pending := t.baseClassDescriptors.Keys;
    while pending != {}
      invariant pending <= t.baseClassDescriptors.Keys
      invariant g.Valid()
      invariant g.edges == EdgesFrom(t, t.baseClassDescriptors.Keys - pending)
      invariant g.nodes == t.baseClassDescriptors.Keys + EdgeNodes(g.edges)
      decreases pending
    {
      HasElement(pending);
      var bcdAddr :| bcdAddr in pending;
      var arr := GetBaseClassArrayFromBcd(t, t.baseClassDescriptors[bcdAddr]);
      ghost var edges0, nodes0 := g.edges, g.nodes;
      var _ := CreateBcdHierarchyRecursively(t, arr, g);
      GraphStep(t, pending, bcdAddr, edges0, nodes0, g.edges, g.nodes);
      pending := pending - {bcdAddr};
    }
  }

  // ---------------------------------------------------------------------
  // The step of the top-level loop

  /** Where the top-level loop of the walk stands at `i`: the graph holds
      what it held before the walk (`E`, `N`) and the edges of the walk's
      pairs before `i`. */
  ghost predicate WalkedUpTo(nb: Counts, arr: seq<int>, i: nat, E: set<Edge>, N: set<int>,
                             edges: set<Edge>, nodes: set<int>)
    requires Walkable(nb, arr)
  {
    && 1 <= i <= Max1(|arr|) && i - 1 <= |WalkPairs(nb, arr)|
    && (|arr| > 0 ==> TopLevel(nb, arr, i))
    && edges == E + EdgesOf(arr, WalkPairs(nb, arr)[..i - 1])
    && nodes == N + EdgeNodes(EdgesOf(arr, WalkPairs(nb, arr)[..i - 1]))
  }

  lemma WalkStart(nb: Counts, arr: seq<int>, E: set<Edge>, N: set<int>)
    requires Walkable(nb, arr)
    ensures WalkedUpTo(nb, arr, 1, E, N, E, N)
  {
    assert EdgesOf(arr, WalkPairs(nb, arr)[..0]) == {};
  }

  lemma WalkEnd(nb: Counts, arr: seq<int>, i: nat, E: set<Edge>, N: set<int>,
                edges: set<Edge>, nodes: set<int>)
    requires Walkable(nb, arr) && WalkedUpTo(nb, arr, i, E, N, edges, nodes) && i >= |arr|
    ensures i == Max1(|arr|)
    ensures edges == E + WalkEdges(nb, arr) && nodes == N + EdgeNodes(WalkEdges(nb, arr))
  {
    WalkShape(nb, arr);
    assert WalkPairs(nb, arr)[..i - 1] == WalkPairs(nb, arr);
  }

  /** A pass of the top-level loop that recurses into the entry's slice. */
  lemma WalkSliceStep(nb: Counts, arr: seq<int>, i: nat, next: int, j: int, E: set<Edge>, N: set<int>,
                      edges0: set<Edge>, nodes0: set<int>, edges1: set<Edge>, nodes1: set<int>)
    requires Walkable(nb, arr) && 1 <= i < |arr| && WalkedUpTo(nb, arr, i, E, N, edges0, nodes0)
    requires next == nb[arr[i]] + i + 1 && next > 0
    requires Walkable(nb, Slice(arr, i, next)) && j == i + Max1(|Slice(arr, i, next)|)
    requires edges1 == edges0 + {(arr[i], arr[0])} + WalkEdges(nb, Slice(arr, i, next))
    requires nodes1 == nodes0 + {arr[i], arr[0]} + EdgeNodes(WalkEdges(nb, Slice(arr, i, next)))
    ensures j >= 0 && WalkedUpTo(nb, arr, j, E, N, edges1, nodes1)
  {
    WalkLoopSlice(nb, arr, i, next, j, E, N);
  }

  /** A pass of the top-level loop that does not recurse. */
  lemma WalkNoSliceStep(nb: Counts, arr: seq<int>, i: nat, next: int, j: int, E: set<Edge>, N: set<int>,
                        edges0: set<Edge>, nodes0: set<int>, edges1: set<Edge>, nodes1: set<int>)
    requires Walkable(nb, arr) && 1 <= i < |arr| && WalkedUpTo(nb, arr, i, E, N, edges0, nodes0)
    requires next == nb[arr[i]] + i + 1 && next <= 0 && j == i + 1
    requires edges1 == edges0 + {(arr[i], arr[0])} && nodes1 == nodes0 + {arr[i], arr[0]}
    ensures WalkedUpTo(nb, arr, j, E, N, edges1, nodes1)
  {
    WalkLoopNoSlice(nb, arr, i, next, j, E, N);
  }

  /** The slice the walk recurses into can be walked. */
  lemma SliceWalkable(nb: Counts, arr: seq<int>, i: nat, next: int)
    requires Walkable(nb, arr) && 1 <= i < |arr| && next > 0
    ensures Walkable(nb, Slice(arr, i, next))
  {
  }

  /** One pass of the top-level loop at entry `i`, for a positive slice
      end, up to index `j` where the loop resumes: the walk's pairs before
      `j` are those before the entry, the entry's pair to element 0, and the
      pairs of the slice the walk recurses into, in `arr`'s indices. */
  lemma WalkLoopSlice(nb: Counts, arr: seq<int>, i: nat, next: int, j: int, E: set<Edge>, N: set<int>)
    requires Walkable(nb, arr) && 1 <= i < |arr| && TopLevel(nb, arr, i)
    requires next == nb[arr[i]] + i + 1 && next > 0
    requires Walkable(nb, Slice(arr, i, next)) && j == i + Max1(|Slice(arr, i, next)|)
    ensures var ps := WalkPairs(nb, arr);
      && 1 <= j <= Max1(|arr|) && TopLevel(nb, arr, j)
      && E + EdgesOf(arr, ps[..j - 1]) ==
         E + EdgesOf(arr, ps[..i - 1]) + {(arr[i], arr[0])} + WalkEdges(nb, Slice(arr, i, next))
      && N + EdgeNodes(EdgesOf(arr, ps[..j - 1])) ==
         N + EdgeNodes(EdgesOf(arr, ps[..i - 1])) + {arr[i], arr[0]} +
         EdgeNodes(WalkEdges(nb, Slice(arr, i, next)))
  {
    var ps := WalkPairs(nb, arr);
    var end := RangeEnd(nb, arr, i, |arr|);
    var inner := Scan(nb, arr, i, end, i + 1);
    SliceStep(nb, arr, i, next, end);
    assert j == end;
    WalkPrefix(nb, arr, i);
    WalkStepEdges(arr, i, ps[..i - 1], inner, ps[..j - 1]);
    var x, w := EdgesOf(arr, ps[..i - 1]), WalkEdges(nb, Slice(arr, i, next));
    UnionRegroup(E, x, {(arr[i], arr[0])}, w);
    UnionRegroup(N, EdgeNodes(x), {arr[i], arr[0]}, EdgeNodes(w));
  }

  /** One pass of the top-level loop at entry `i`, for a slice end at or
      below 0: the walk does not recurse, the entry's range is empty and
      the loop resumes at `j`, the next entry. */
  lemma WalkLoopNoSlice(nb: Counts, arr: seq<int>, i: nat, next: int, j: int, E: set<Edge>, N: set<int>)
    requires Walkable(nb, arr) && 1 <= i < |arr| && TopLevel(nb, arr, i)
    requires next == nb[arr[i]] + i + 1 && next <= 0
    requires j == i + 1
    ensures var ps := WalkPairs(nb, arr);
      && 1 <= j <= Max1(|arr|) && TopLevel(nb, arr, j)
      && E + EdgesOf(arr, ps[..j - 1]) == E + EdgesOf(arr, ps[..i - 1]) + {(arr[i], arr[0])}
      && N + EdgeNodes(EdgesOf(arr, ps[..j - 1])) ==
         N + EdgeNodes(EdgesOf(arr, ps[..i - 1])) + {arr[i], arr[0]}
  {
    var ps := WalkPairs(nb, arr);
    var end := RangeEnd(nb, arr, i, |arr|);
    var inner := Scan(nb, arr, i, end, i + 1);
    NoSliceStep(nb, arr, i, next, end);
    assert j == end;
    WalkPrefix(nb, arr, i);
    WalkStepEdges(arr, i, ps[..i - 1], inner, ps[..j - 1]);
    var x, w := EdgesOf(arr, ps[..i - 1]), EdgesOf(arr, inner);
    assert w == {};
    UnionRegroupEmpty(E, x, {(arr[i], arr[0])}, w);
    UnionRegroupEmpty(N, EdgeNodes(x), {arr[i], arr[0]}, EdgeNodes(w));
  }

  lemma UnionRegroup<T>(a: set<T>, b: set<T>, c: set<T>, d: set<T>)
    ensures a + (b + c + d) == a + b + c + d
  {
  }

  lemma UnionRegroupEmpty<T>(a: set<T>, b: set<T>, c: set<T>, d: set<T>)
    requires d == {}
    ensures a + (b + c + d) == a + b + c
  {
  }

  /** `i` is where the top-level loop stands: the walk's pairs are those
      before `i`, then the rest of the top-level scan from `i`. */
  ghost predicate TopLevel(nb: Counts, arr: seq<int>, i: nat)
    requires Walkable(nb, arr)
  {
    0 < i <= |arr| && i - 1 <= |WalkPairs(nb, arr)| &&
    WalkPairs(nb, arr) == WalkPairs(nb, arr)[..i - 1] + Scan(nb, arr, 0, |arr|, i)
  }

  /** From a top-level position `i`, the walk's pairs up to the end of the
      entry's range are those before `i`, then `i`'s pair to element 0, then
      the pairs of its range; the end of the range is a top-level position. */
  lemma WalkPrefix(nb: Counts, arr: seq<int>, i: nat)
    requires Walkable(nb, arr) && 1 <= i < |arr| && TopLevel(nb, arr, i)
    ensures var ps := WalkPairs(nb, arr);
      var end := RangeEnd(nb, arr, i, |arr|);
      && end - 1 <= |ps|
      && ps[..end - 1] == ps[..i - 1] + [(i, 0)] + Scan(nb, arr, i, end, i + 1)
      && TopLevel(nb, arr, end)
  {
    var ps := WalkPairs(nb, arr);
    var end := RangeEnd(nb, arr, i, |arr|);
    var inner := Scan(nb, arr, i, end, i + 1);
    var rest := Scan(nb, arr, 0, |arr|, end);
    var before := ps[..i - 1];
    assert Scan(nb, arr, 0, |arr|, i) == [(i, 0)] + inner + rest;
    ConcatAssoc(before, [(i, 0)], inner, rest);
    var front := before + [(i, 0)] + inner;
    assert ps == front + rest;
    ScanShape(nb, arr, i, end, i + 1);
    assert |front| == end - 1;
    PrefixOfConcat(front, rest);
  }

  lemma PrefixOfConcat<T>(a: seq<T>, b: seq<T>)
    ensures (a + b)[..|a|] == a
  {
  }

  /** The slice the walk recurses into, for a positive slice end. */
  lemma SliceStep(nb: Counts, arr: seq<int>, i: nat, next: int, end: nat)
    requires Walkable(nb, arr) && 1 <= i < |arr|
    requires next == nb[arr[i]] + i + 1 && next > 0
    requires end == RangeEnd(nb, arr, i, |arr|)
    ensures Walkable(nb, Slice(arr, i, next))
    ensures i + Max1(|Slice(arr, i, next)|) == end
    ensures WalkEdges(nb, Slice(arr, i, next)) == EdgesOf(arr, Scan(nb, arr, i, end, i + 1))
  {
    var s := Slice(arr, i, next);
    if next > i {
      assert s == arr[i..end];
      SliceWalk(nb, arr, i);
    } else {
      assert s == [];
      assert end == i + 1;
      assert Scan(nb, arr, i, end, i + 1) == [];
      assert WalkEdges(nb, s) == {};
      assert EdgesOf(arr, []) == {};
    }
  }

  /** The walk does not recurse for a slice end at or below 0: the
      entry's range is then empty. */
  lemma NoSliceStep(nb: Counts, arr: seq<int>, i: nat, next: int, end: nat)
    requires Walkable(nb, arr) && 1 <= i < |arr|
    requires next == nb[arr[i]] + i + 1 && next <= 0
    requires end == RangeEnd(nb, arr, i, |arr|)
    ensures end == i + 1 && Scan(nb, arr, i, end, i + 1) == []
  {
  }

  /** The recursive call on the slice holding the range of the entry at `i`
      adds the edges of the scan of that range. */
  lemma SliceWalk(nb: Counts, arr: seq<int>, i: nat)
    requires Walkable(nb, arr) && 1 <= i < |arr|
    requires nb[arr[i]] >= 0
    ensures var end := RangeEnd(nb, arr, i, |arr|);
      Walkable(nb, arr[i..end]) &&
      WalkEdges(nb, arr[i..end]) == EdgesOf(arr, Scan(nb, arr, i, end, i + 1))
  {
    var end := RangeEnd(nb, arr, i, |arr|);
    var s := arr[i..end];
    assert Walkable(nb, s);
    var ps := Scan(nb, s, 0, |s|, 1);
    assert WalkPairs(nb, s) == ps;
    ScanShape(nb, s, 0, |s|, 1);
    ScanShift(nb, arr, s, i, 0, |s|, 1, i, end, i + 1);
    EdgesOfShift(arr, s, i, ps);
  }

  /** The edge and node sets after one step of the top-level loop. */
  lemma WalkStepEdges(arr: seq<int>, i: nat, done: seq<IndexPair>, inner: seq<IndexPair>, full: seq<IndexPair>)
    requires 1 <= i < |arr| && full == done + [(i, 0)] + inner
    ensures EdgesOf(arr, full) == EdgesOf(arr, done) + {(arr[i], arr[0])} + EdgesOf(arr, inner)
    ensures EdgeNodes(EdgesOf(arr, full)) ==
            EdgeNodes(EdgesOf(arr, done)) + {arr[i], arr[0]} + EdgeNodes(EdgesOf(arr, inner))
    ensures EdgesOf(arr, []) == {}
  {
    EdgesOfSingle(arr, i);
    EdgesOfConcat(arr, done, [(i, 0)]);
    EdgesOfConcat(arr, done + [(i, 0)], inner);
    EdgeNodesUnion(EdgesOf(arr, done), {(arr[i], arr[0])});
    EdgeNodesUnion(EdgesOf(arr, done) + {(arr[i], arr[0])}, EdgesOf(arr, inner));
  }

  // ---------------------------------------------------------------------
  // Properties of the scan

  /** The range being scanned lies inside the range of its head `o`. */
  ghost predicate RangeCovers(nb: Counts, arr: seq<int>, o: nat, e: nat, i: nat)
    requires Walkable(nb, arr) && o < i <= e <= |arr|
  {
    i == e || o == 0 || e <= o + nb[arr[o]] + 1
  }

  /** `ps` visits the indices `i` up to `e` in order, and links each to an
      earlier entry, no earlier than `o`, whose range covers it. */
  ghost predicate Shaped(nb: Counts, arr: seq<int>, ps: seq<IndexPair>, o: nat, i: nat, e: nat)
  {
    |ps| + i == e &&
    forall k :: 0 <= k < |ps| ==>
      ps[k].0 == i + k && o <= ps[k].1 < ps[k].0 && Encloses(nb, arr, ps[k].1, ps[k].0)
  }

  lemma ShapedStep(nb: Counts, arr: seq<int>, o: nat, e: nat, i: nat,
                   inner: seq<IndexPair>, rest: seq<IndexPair>)
    requires Walkable(nb, arr) && o < i < e <= |arr| && RangeCovers(nb, arr, o, e, i)
    requires Shaped(nb, arr, inner, i, i + 1, RangeEnd(nb, arr, i, e))
    requires Shaped(nb, arr, rest, o, RangeEnd(nb, arr, i, e), e)
    ensures Shaped(nb, arr, [(i, o)] + inner + rest, o, i, e)
  {
    var ps := [(i, o)] + inner + rest;
    forall k | 0 <= k < |ps|
      ensures ps[k].0 == i + k && o <= ps[k].1 < ps[k].0 && Encloses(nb, arr, ps[k].1, ps[k].0)
    {
      if k == 0 {
      } else if k <= |inner| {
        assert ps[k] == inner[k - 1];
      } else {
        assert ps[k] == rest[k - 1 - |inner|];
      }
    }
  }

  lemma {:induction false} ScanShape(nb: Counts, arr: seq<int>, o: nat, e: nat, i: nat)
    requires Walkable(nb, arr) && o < i <= e <= |arr| && RangeCovers(nb, arr, o, e, i)
    ensures Shaped(nb, arr, Scan(nb, arr, o, e, i), o, i, e)
    decreases e - i
  {
    if i < e {
      var end := RangeEnd(nb, arr, i, e);
      ScanShape(nb, arr, i, end, i + 1);
      ScanShape(nb, arr, o, e, end);
      ShapedStep(nb, arr, o, e, i, Scan(nb, arr, i, end, i + 1), Scan(nb, arr, o, e, end));
    }
  }

  /** Every entry between the head `o` and the scan position `i` has a range
      that ends before `i`. */
  ghost predicate Closed(nb: Counts, arr: seq<int>, o: nat, e: nat, i: nat)
    requires Walkable(nb, arr) && o < i <= e <= |arr|
  {
    i < e ==> forall q: nat :: o < q < i ==> q + nb[arr[q]] < i
  }

  /** No entry strictly between a pair's parent and child covers the child. */
  ghost predicate Innermost(nb: Counts, arr: seq<int>, ps: seq<IndexPair>)
  {
    forall k, q: nat :: 0 <= k < |ps| && ps[k].1 < q < ps[k].0 ==> !Encloses(nb, arr, q, ps[k].0)
  }

  lemma InnermostStep(nb: Counts, arr: seq<int>, o: nat, e: nat, i: nat,
                      inner: seq<IndexPair>, rest: seq<IndexPair>)
    requires Walkable(nb, arr) && o < i < e <= |arr| && Closed(nb, arr, o, e, i)
    requires Innermost(nb, arr, inner) && Innermost(nb, arr, rest)
    ensures Innermost(nb, arr, [(i, o)] + inner + rest)
  {
    var ps := [(i, o)] + inner + rest;
    forall k, q: nat | 0 <= k < |ps| && ps[k].1 < q < ps[k].0
      ensures !Encloses(nb, arr, q, ps[k].0)
    {
      if k == 0 {
        assert q + nb[arr[q]] < i;
      } else if k <= |inner| {
        assert ps[k] == inner[k - 1];
      } else {
        assert ps[k] == rest[k - 1 - |inner|];
      }
    }
  }

  /** On a well-nested array, a step of the scan keeps the entries behind
      it closed, both for the descent and for the resumption. */
  lemma ClosedStep(nb: Counts, arr: seq<int>, o: nat, e: nat, i: nat)
    requires Walkable(nb, arr) && WellNested(nb, arr)
    requires o < i < e <= |arr| && Closed(nb, arr, o, e, i)
    ensures Closed(nb, arr, i, RangeEnd(nb, arr, i, e), i + 1)
    ensures Closed(nb, arr, o, e, RangeEnd(nb, arr, i, e))
  {
    var end := RangeEnd(nb, arr, i, e);
    var n := nb[arr[i]];
    if end < e {
      forall q: nat | o < q < end
        ensures q + nb[arr[q]] < end
      {
        if q < i {
        } else if q == i {
        } else {
          assert q + nb[arr[q]] <= i + n;
        }
      }
    }
  }

  lemma {:induction false} ScanInnermost(nb: Counts, arr: seq<int>, o: nat, e: nat, i: nat)
    requires Walkable(nb, arr) && WellNested(nb, arr)
    requires o < i <= e <= |arr| && Closed(nb, arr, o, e, i)
    ensures Innermost(nb, arr, Scan(nb, arr, o, e, i))
    decreases e - i
  {
    if i < e {
      var end := RangeEnd(nb, arr, i, e);
      ClosedStep(nb, arr, o, e, i);
      ScanInnermost(nb, arr, i, end, i + 1);
      ScanInnermost(nb, arr, o, e, end);
      InnermostStep(nb, arr, o, e, i, Scan(nb, arr, i, end, i + 1), Scan(nb, arr, o, e, end));
    }
  }

  /** Scanning a slice `s` that starts at index `d` of `arr` produces the
      pairs of the scan of `arr` over the same entries (`o2`, `e2`, `j2` are
      `o`, `e`, `j` shifted by `d`), shifted by `d`. */
  lemma {:induction false} ScanShift(nb: Counts, arr: seq<int>, s: seq<int>, d: nat,
                                     o: nat, e: nat, j: nat, o2: nat, e2: nat, j2: nat)
    requires Walkable(nb, arr) && Walkable(nb, s)
    requires d + |s| <= |arr| && forall k :: 0 <= k < |s| ==> s[k] == arr[d + k]
    requires o < j <= e <= |s| && o2 == o + d && e2 == e + d && j2 == j + d
    ensures Shift(Scan(nb, s, o, e, j), d) == Scan(nb, arr, o2, e2, j2)
    decreases e - j
  {
    if j < e {
      var end := RangeEnd(nb, s, j, e);
      assert s[j] == arr[j2];
      var end2 := RangeEnd(nb, arr, j2, e2);
      assert end2 == end + d;
      var inner := Scan(nb, s, j, end, j + 1);
      var rest := Scan(nb, s, o, e, end);
      ScanShift(nb, arr, s, d, j, end, j + 1, j2, end2, j2 + 1);
      ScanShift(nb, arr, s, d, o, e, end, o2, e2, end2);
      assert Scan(nb, s, o, e, j) == [(j, o)] + inner + rest;
      assert Scan(nb, arr, o2, e2, j2) ==
        [(j2, o2)] + Scan(nb, arr, j2, end2, j2 + 1) + Scan(nb, arr, o2, e2, end2);
      ShiftCons((j, o), inner, rest, d);
    }
  }

  lemma ShiftCons(p: IndexPair, a: seq<IndexPair>, b: seq<IndexPair>, d: nat)
    ensures Shift([p] + a + b, d) == [(p.0 + d, p.1 + d)] + Shift(a, d) + Shift(b, d)
  {
    ShiftConcat([p] + a, b, d);
    ShiftConcat([p], a, d);
    assert Shift([p], d) == [(p.0 + d, p.1 + d)];
  }

  lemma ConcatAssoc<T>(a: seq<T>, b: seq<T>, c: seq<T>, d: seq<T>)
    ensures a + (b + c + d) == (a + b + c) + d
  {
  }

  lemma ShiftConcat(a: seq<IndexPair>, b: seq<IndexPair>, d: nat)
    ensures Shift(a + b, d) == Shift(a, d) + Shift(b, d)
  {
  }

  // ---------------------------------------------------------------------
  // Properties of the walk

  /** The walk visits every entry after element 0 exactly once, in order,
      and links it to an earlier entry whose range covers it. */
  lemma WalkShape(nb: Counts, arr: seq<int>)
    requires Walkable(nb, arr)
    ensures Shaped(nb, arr, WalkPairs(nb, arr), 0, 1, Max1(|arr|))
  {
    if |arr| > 0 {
      ScanShape(nb, arr, 0, |arr|, 1);
    }
  }

  /** On a well-nested array the walk links each entry to the innermost
      earlier entry whose range covers it. */
  lemma WalkInnermost(nb: Counts, arr: seq<int>)
    requires Walkable(nb, arr) && WellNested(nb, arr)
    ensures Innermost(nb, arr, WalkPairs(nb, arr))
  {
    if |arr| > 0 {
      ScanInnermost(nb, arr, 0, |arr|, 1);
    }
  }

  /** Walk edges, per index: on a well-nested array the walk's edge set is
      exactly one edge from each entry to the class it is an immediate base
      of, and nothing else. */
  lemma WalkEdgesExact(nb: Counts, arr: seq<int>)
    requires Walkable(nb, arr) && WellNested(nb, arr)
    ensures forall u, v :: (u, v) in WalkEdges(nb, arr) <==>
      exists p: nat, c: nat :: ImmediateDerived(nb, arr, p, c) && u == arr[c] && v == arr[p]
  {
    var ps := WalkPairs(nb, arr);
    WalkShape(nb, arr);
    WalkInnermost(nb, arr);
    forall u, v | (u, v) in WalkEdges(nb, arr)
      ensures exists p: nat, c: nat :: ImmediateDerived(nb, arr, p, c) && u == arr[c] && v == arr[p]
    {
      var k :| 0 <= k < |ps| && ps[k].0 < |arr| && ps[k].1 < |arr| &&
                (u, v) == (arr[ps[k].0], arr[ps[k].1]);
      assert ImmediateDerived(nb, arr, ps[k].1, ps[k].0);
    }
    forall u, v | exists p: nat, c: nat :: ImmediateDerived(nb, arr, p, c) && u == arr[c] && v == arr[p]
      ensures (u, v) in WalkEdges(nb, arr)
    {
      var p: nat, c: nat :| ImmediateDerived(nb, arr, p, c) && u == arr[c] && v == arr[p];
      var k := c - 1;
      assert ps[k].0 == c;
      var p0 := ps[k].1;
      assert p0 == p;
      assert (arr[ps[k].0], arr[ps[k].1]) in EdgesOf(arr, ps);
    }
  }

  /** Without well-nestedness the walk still only links an entry to an
      earlier entry whose range covers it. */
  lemma WalkEdgesEnclosed(nb: Counts, arr: seq<int>)
    requires Walkable(nb, arr)
    ensures forall e :: e in WalkEdges(nb, arr) ==>
      exists p: nat, c: nat :: p < c < |arr| && Encloses(nb, arr, p, c) && e == (arr[c], arr[p])
  {
    var ps := WalkPairs(nb, arr);
    WalkShape(nb, arr);
    forall e | e in WalkEdges(nb, arr)
      ensures exists p: nat, c: nat :: p < c < |arr| && Encloses(nb, arr, p, c) && e == (arr[c], arr[p])
    {
      var k :| 0 <= k < |ps| && ps[k].0 < |arr| && ps[k].1 < |arr| &&
                e == (arr[ps[k].0], arr[ps[k].1]);
      assert Encloses(nb, arr, ps[k].1, ps[k].0);
    }
  }

  /** Walking an array of two or more entries makes every entry a node;
      shorter arrays add nothing. */
  lemma WalkNodes(nb: Counts, arr: seq<int>)
    requires Walkable(nb, arr)
    ensures EdgeNodes(WalkEdges(nb, arr)) == if |arr| > 1 then set x | x in arr else {}
  {
    var ps := WalkPairs(nb, arr);
    WalkShape(nb, arr);
    var es := WalkEdges(nb, arr);
    if |arr| > 1 {
      forall x | x in arr ensures x in EdgeNodes(es)
      {
        var j :| 0 <= j < |arr| && arr[j] == x;
        if j == 0 {
          assert (arr[ps[0].0], arr[ps[0].1]) in es;
        } else {
          assert (arr[ps[j - 1].0], arr[ps[j - 1].1]) in es;
        }
      }
      forall x | x in EdgeNodes(es) ensures x in arr
      {
        var e :| e in es && (x == e.0 || x == e.1);
      }
    } else {
      assert |ps| == 0;
      assert es == {};
    }
  }

  /** Walking the same array again adds no edge; the graph of a set of
      walks is the union of their edge sets. */
  lemma HierarchyEdgesPerHierarchy(t: Tables)
    requires GraphReady(t)
    ensures HierarchyEdges(t) ==
      set c, e | c in (set k | k in t.baseClassDescriptors :: HexValue(t.baseClassDescriptors[k].pClassDescriptor)) &&
                 e in WalkEdges(CountsOf(t), t.classHierarchyDescriptors[c].baseClassArray) :: e
  {
  }

  // ---------------------------------------------------------------------
  // Helpers about edge sets

  lemma EdgesOfSingle(arr: seq<int>, i: nat)
    requires 1 <= i < |arr|
    ensures EdgesOf(arr, [(i, 0)]) == {(arr[i], arr[0])}
  {
    assert (arr[i], arr[0]) in EdgesOf(arr, [(i, 0)]) by {
      assert [(i, 0)][0] == (i, 0);
    }
  }

  lemma EdgesOfConcat(arr: seq<int>, a: seq<IndexPair>, b: seq<IndexPair>)
    ensures EdgesOf(arr, a + b) == EdgesOf(arr, a) + EdgesOf(arr, b)
  {
    var ab := a + b;
    forall e | e in EdgesOf(arr, ab) ensures e in EdgesOf(arr, a) + EdgesOf(arr, b)
    {
      var k :| 0 <= k < |ab| && ab[k].0 < |arr| && ab[k].1 < |arr| && e == (arr[ab[k].0], arr[ab[k].1]);
      if k < |a| { assert ab[k] == a[k]; } else { assert ab[k] == b[k - |a|]; }
    }
    forall e | e in EdgesOf(arr, a) ensures e in EdgesOf(arr, ab)
    {
      var k :| 0 <= k < |a| && a[k].0 < |arr| && a[k].1 < |arr| && e == (arr[a[k].0], arr[a[k].1]);
      assert ab[k] == a[k];
    }
    forall e | e in EdgesOf(arr, b) ensures e in EdgesOf(arr, ab)
    {
      var k :| 0 <= k < |b| && b[k].0 < |arr| && b[k].1 < |arr| && e == (arr[b[k].0], arr[b[k].1]);
      assert ab[k + |a|] == b[k];
    }
  }

  /** The edges of a sub-array, in its own indices, are those of the
      enclosing array at indices shifted by the sub-array's start. */
  lemma EdgesOfShift(arr: seq<int>, s: seq<int>, d: nat, ps: seq<IndexPair>)
    requires d + |s| <= |arr| && forall k :: 0 <= k < |s| ==> s[k] == arr[d + k]
    requires forall k :: 0 <= k < |ps| ==> ps[k].0 < |s| && ps[k].1 < |s|
    ensures EdgesOf(s, ps) == EdgesOf(arr, Shift(ps, d))
  {
    var sh := Shift(ps, d);
    forall e | e in EdgesOf(s, ps) ensures e in EdgesOf(arr, sh)
    {
      var k :| 0 <= k < |ps| && ps[k].0 < |s| && ps[k].1 < |s| && e == (s[ps[k].0], s[ps[k].1]);
      assert sh[k] == (ps[k].0 + d, ps[k].1 + d);
    }
    forall e | e in EdgesOf(arr, sh) ensures e in EdgesOf(s, ps)
    {
      var k :| 0 <= k < |sh| && sh[k].0 < |arr| && sh[k].1 < |arr| && e == (arr[sh[k].0], arr[sh[k].1]);
      assert sh[k] == (ps[k].0 + d, ps[k].1 + d);
    }
  }

  lemma EdgeNodesUnion(a: set<Edge>, b: set<Edge>)
    ensures EdgeNodes(a + b) == EdgeNodes(a) + EdgeNodes(b)
  {
  }

  /** Walking one more descriptor's array keeps the graph's edges those of
      the descriptors walked, and its nodes the descriptors plus the edges' ends. */
  lemma GraphStep(t: Tables, pending: set<int>, k: int, E: set<Edge>, N: set<int>, E': set<Edge>, N': set<int>)
    requires GraphReady(t) && pending <= t.baseClassDescriptors.Keys && k in pending
    requires E == EdgesFrom(t, t.baseClassDescriptors.Keys - pending)
    requires N == t.baseClassDescriptors.Keys + EdgeNodes(E)
    requires var w := WalkEdges(CountsOf(t), GetBaseClassArrayFromBcd(t, t.baseClassDescriptors[k]));
      E' == E + w && N' == N + EdgeNodes(w)
    ensures E' == EdgesFrom(t, t.baseClassDescriptors.Keys - (pending - {k}))
    ensures N' == t.baseClassDescriptors.Keys + EdgeNodes(E')
  {
    var w := WalkEdges(CountsOf(t), GetBaseClassArrayFromBcd(t, t.baseClassDescriptors[k]));
    var done := t.baseClassDescriptors.Keys - pending;
    EdgesFromAdd(t, done, k);
    DoneGrows(t.baseClassDescriptors.Keys, pending, k);
    NodesGrow(t.baseClassDescriptors.Keys, E, w, N, N');
  }

  lemma DoneGrows(keys: set<int>, pending: set<int>, k: int)
    requires pending <= keys && k in pending
    ensures keys - (pending - {k}) == (keys - pending) + {k}
  {
  }

  lemma NodesGrow(keys: set<int>, E: set<Edge>, w: set<Edge>, N: set<int>, N': set<int>)
    requires N == keys + EdgeNodes(E) && N' == N + EdgeNodes(w)
    ensures N' == keys + EdgeNodes(E + w)
  {
    EdgeNodesUnion(E, w);
  }

  lemma EdgesFromAdd(t: Tables, ks: set<int>, k: int)
    requires GraphReady(t) && ks <= t.baseClassDescriptors.Keys && k in t.baseClassDescriptors
    ensures EdgesFrom(t, ks + {k}) ==
      EdgesFrom(t, ks) + WalkEdges(CountsOf(t), GetBaseClassArrayFromBcd(t, t.baseClassDescriptors[k]))
  {
  }
}
