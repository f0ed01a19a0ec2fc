/** The lowest-common-ancestor contraction used to pick one owner for a
    function installed by several classes.

    networkx's pairwise lowest-common-ancestor search is not modelled: it is
    an oracle given by the caller, which either names an ancestor of the
    pair or, when the pair has none, names nothing (networkx then yields no
    result for that pair). */
module CommonAncestor {
  import opened Rtti

  type Oracle = (int, int) -> Option<int>

  /** Number of contraction rounds after which the loop gives up. */
  const SafetyLimit: nat := 20

  /** The distinct members of a list. */
  function Elements(xs: seq<int>): set<int>
  {
    set x | x in xs
  }

  /** The unordered pairs of distinct members of `s`, smaller member first. */
  function UnorderedPairs(s: set<int>): set<(int, int)>
  {
    set u, v | u in s && v in s && u < v :: (u, v)
  }

  /** The ancestors the oracle names for the pairs in `ps`. */
  function RoundOver(ps: set<(int, int)>, lca: Oracle): set<int>
  {
    set p | p in ps && lca(p.0, p.1).Some? :: lca(p.0, p.1).value
  }

  /** One contraction round: the set of pairwise ancestors. */
  function Round(s: set<int>, lca: Oracle): set<int>
  {
    RoundOver(UnorderedPairs(s), lca)
  }

  /** The working set once the loop stops, with `fuel` rounds left. */
  function Contract(s: set<int>, lca: Oracle, fuel: nat): set<int>
    decreases fuel
  {
    if |s| > 1 && fuel != 0 then Contract(Round(s, lca), lca, fuel - 1) else s
  }

  /** The number of rounds the loop runs, with `fuel` rounds left. */
  function RoundsTaken(s: set<int>, lca: Oracle, fuel: nat): (n: nat)
    ensures n <= fuel
    ensures |s| <= 1 ==> n == 0
    decreases fuel
  {
    if |s| > 1 && fuel != 0 then 1 + RoundsTaken(Round(s, lca), lca, fuel - 1) else 0
  }

  /** Contracts the distinct classes of `commonClasses` round by round and
      returns one member of the final set, or 0 when it is empty.
      `rounds` counts the rounds, each of which queries the oracle. */
  method GetLowestCommonAncestor(commonClasses: seq<int>, lca: Oracle) returns (r: int, ghost rounds: nat)
    ensures var final := Contract(Elements(commonClasses), lca, SafetyLimit);
      (final == {} ==> r == 0) && (final != {} ==> r in final)
    ensures rounds == RoundsTaken(Elements(commonClasses), lca, SafetyLimit)
    ensures rounds <= SafetyLimit
    ensures |Elements(commonClasses)| <= 1 ==> rounds == 0
    ensures |Elements(commonClasses)| == 1 ==> r in commonClasses
  {
    var current := Elements(commonClasses);
    var safetyMeasure: nat := SafetyLimit;
    rounds := 0;
    while |current| > 1 && safetyMeasure != 0
      invariant safetyMeasure <= SafetyLimit
      invariant Contract(current, lca, safetyMeasure) == Contract(Elements(commonClasses), lca, SafetyLimit)
      invariant rounds + RoundsTaken(current, lca, safetyMeasure) ==
                RoundsTaken(Elements(commonClasses), lca, SafetyLimit)
      decreases safetyMeasure
    {
      var pending := UnorderedPairs(current);
      var next: set<int> := {};
      while pending != {}
        invariant next + RoundOver(pending, lca) == Round(current, lca)
        decreases |pending|
      {
        HasPair(pending);
        var p :| p in pending;
        ghost var next0 := next;
        match lca(p.0, p.1) {
          case Some(w) => next := next + {w};
          case None =>
        }
        CollectStep(pending, p, lca, next0, next, Round(current, lca));
        pending := pending - {p};
      }
      RoundComplete(next, pending, lca, Round(current, lca));
      ContractStep(current, lca, safetyMeasure, next);
      current := next;
      safetyMeasure := safetyMeasure - 1;
      rounds := rounds + 1;
    }
    ContractStop(current, lca, safetyMeasure);
    if |current| > 0 {
      HasElement(current);
      r :| r in current;
    } else {
      r := 0;
    }
  }

  /** Once no pair is pending, the collected ancestors are the whole round. */
  lemma RoundComplete(next: set<int>, ps: set<(int, int)>, lca: Oracle, all: set<int>)
    requires ps == {} && next + RoundOver(ps, lca) == all
    ensures next == all
  {
    assert RoundOver(ps, lca) == {};
  }

  /** A round with fuel left: the loop continues on the round's result. */
  lemma ContractStep(s: set<int>, lca: Oracle, fuel: nat, next: set<int>)
    requires |s| > 1 && fuel != 0 && next == Round(s, lca)
    ensures Contract(s, lca, fuel) == Contract(next, lca, fuel - 1)
    ensures RoundsTaken(s, lca, fuel) == 1 + RoundsTaken(next, lca, fuel - 1)
  {
  }

  /** A single class, no class, or no fuel left: the loop stops here. */
  lemma ContractStop(s: set<int>, lca: Oracle, fuel: nat)
    requires !(|s| > 1 && fuel != 0)
    ensures Contract(s, lca, fuel) == s
    ensures RoundsTaken(s, lca, fuel) == 0
  {
  }

  /** Collecting the ancestor of pair `p` keeps the collected ancestors
      plus those of the pairs still pending equal to the whole round. */
  lemma CollectStep(ps: set<(int, int)>, p: (int, int), lca: Oracle, next: set<int>, next': set<int>, all: set<int>)
    requires p in ps && next + RoundOver(ps, lca) == all
    requires next' == if lca(p.0, p.1).Some? then next + {lca(p.0, p.1).value} else next
    ensures next' + RoundOver(ps - {p}, lca) == all
    ensures |ps - {p}| < |ps|
  {
    RoundOverRemove(ps, p, lca);
  }

  /** Taking one pair out of `ps` takes out at most its ancestor. */
  lemma RoundOverRemove(ps: set<(int, int)>, p: (int, int), lca: Oracle)
    requires p in ps
    ensures RoundOver(ps, lca) ==
            RoundOver(ps - {p}, lca) + (if lca(p.0, p.1).Some? then {lca(p.0, p.1).value} else {})
  {
  }

  // ---------------------------------------------------------------------
  // What the result means, for an oracle that respects an ancestor order

  /** `anc(x, y)`: `x` is `y` or one of its (transitive) bases. */
  ghost predicate Preorder(anc: (int, int) -> bool)
  {
    && (forall x :: anc(x, x))
    && (forall x, y, z :: anc(x, y) && anc(y, z) ==> anc(x, z))
  }

  /** Whatever the oracle names is an ancestor of both members of the pair. */
  ghost predicate Sound(lca: Oracle, anc: (int, int) -> bool)
  {
    forall u, v :: lca(u, v).Some? ==> anc(lca(u, v).value, u) && anc(lca(u, v).value, v)
  }

  /** Every pair has a common ancestor. */
  ghost predicate Total(lca: Oracle)
  {
    forall u, v :: lca(u, v).Some?
  }

  /** With a sound oracle, every member of the final set is an ancestor of
      some input class. */
  lemma {:induction false} ContractSound(s: set<int>, lca: Oracle, anc: (int, int) -> bool, fuel: nat)
    requires Preorder(anc) && Sound(lca, anc)
    ensures forall z :: z in Contract(s, lca, fuel) ==> exists x :: x in s && anc(z, x)
    decreases fuel
  {
    if |s| > 1 && fuel != 0 {
      var s' := Round(s, lca);
      ContractSound(s', lca, anc, fuel - 1);
      assert Contract(s, lca, fuel) == Contract(s', lca, fuel - 1);
      forall z | z in Contract(s, lca, fuel)
        ensures exists x :: x in s && anc(z, x)
      {
        var w :| w in s' && anc(z, w);
        var p :| p in UnorderedPairs(s) && lca(p.0, p.1).Some? && lca(p.0, p.1).value == w;
        assert anc(w, p.0);
      }
    } else {
      forall z | z in Contract(s, lca, fuel)
        ensures exists x :: x in s && anc(z, x)
      {
        assert anc(z, z);
      }
    }
  }

  /** With a sound oracle that answers every pair, every input class has an
      ancestor in the final set. */
  lemma {:induction false} ContractCovers(s: set<int>, lca: Oracle, anc: (int, int) -> bool, fuel: nat)
    requires Preorder(anc) && Sound(lca, anc) && Total(lca)
    ensures forall x :: x in s ==> exists z :: z in Contract(s, lca, fuel) && anc(z, x)
    decreases fuel
  {
    if |s| > 1 && fuel != 0 {
      var s' := Round(s, lca);
      ContractCovers(s', lca, anc, fuel - 1);
      forall x | x in s
        ensures exists z :: z in Contract(s, lca, fuel) && anc(z, x)
      {
        var y := OtherMember(s, x);
        var p := if x < y then (x, y) else (y, x);
        assert p in UnorderedPairs(s);
        var w := lca(p.0, p.1).value;
        assert w in s';
        assert anc(w, x);
        var z :| z in Contract(s', lca, fuel - 1) && anc(z, w);
        assert anc(z, x);
      }
    } else {
      forall x | x in s
        ensures exists z :: z in Contract(s, lca, fuel) && anc(z, x)
      {
        assert anc(x, x);
      }
    }
  }

  /** A set with two or more members has a member other than `x`. */
  lemma OtherMember(s: set<int>, x: int) returns (y: int)
    requires |s| > 1 && x in s
    ensures y in s && y != x
  {
    var rest := s - {x};
    assert s == rest + {x};
    HasElement(rest);
    y :| y in rest;
  }

  /** When the contraction ends in a single class, that class is a common
      ancestor of every input class: the lowest common ancestor the loop is
      meant to find. */
  lemma SingleResultIsCommonAncestor(commonClasses: seq<int>, lca: Oracle, anc: (int, int) -> bool, w: int)
    requires Preorder(anc) && Sound(lca, anc) && Total(lca)
    requires Contract(Elements(commonClasses), lca, SafetyLimit) == {w}
    ensures forall x :: x in commonClasses ==> anc(w, x)
  {
    var s := Elements(commonClasses);
    ContractCovers(s, lca, anc, SafetyLimit);
    SingletonCovers(commonClasses, s, Contract(s, lca, SafetyLimit), w, anc);
  }

  lemma SingletonCovers(xs: seq<int>, s: set<int>, final: set<int>, w: int, anc: (int, int) -> bool)
    requires s == Elements(xs) && final == {w}
    requires forall x :: x in s ==> exists z :: z in final && anc(z, x)
    ensures forall x :: x in xs ==> anc(w, x)
  {
    forall x | x in xs
      ensures anc(w, x)
    {
      assert x in s;
    }
  }

  /** The final set holds only input classes and classes the oracle named. */
  lemma {:induction false} ContractWithin(s: set<int>, lca: Oracle, fuel: nat, known: set<int>)
    requires s <= known
    requires forall u, v :: lca(u, v).Some? ==> lca(u, v).value in known
    ensures Contract(s, lca, fuel) <= known
    decreases fuel
  {
    if |s| > 1 && fuel != 0 {
      assert Round(s, lca) <= known;
      ContractWithin(Round(s, lca), lca, fuel - 1, known);
    }
  }
  // ---------------------------------------------------------------------
  // Why the oracle must answer every pair

  /** An oracle that knows a common ancestor only for classes 1 and 2. */
  function PartialLca(u: int, v: int): Option<int>
  {
    if u == 1 && v == 2 then Some(10) else None
  }

  /** Class 10 is a base of classes 1 and 2; class 3 is unrelated. */
  predicate SideAncestor(x: int, y: int)
  {
    x == y || (x == 10 && (y == 1 || y == 2))
  }

  /** Without `Total`, a single result need not be a common ancestor: pairs
      without an answer drop out of the round, so classes 1, 2 and 3 contract
      to class 10, which is not an ancestor of 3. */
  lemma PartialOracleNotCommon()
    ensures Preorder(SideAncestor) && Sound(PartialLca, SideAncestor)
    ensures Contract(Elements([1, 2, 3]), PartialLca, SafetyLimit) == {10}
    ensures 3 in Elements([1, 2, 3]) && !SideAncestor(10, 3)
  {
    var s := Elements([1, 2, 3]);
    assert s == {1, 2, 3};
    assert UnorderedPairs(s) == {(1, 2), (1, 3), (2, 3)};
    assert Round(s, PartialLca) == {10};
    assert Contract({10}, PartialLca, SafetyLimit - 1) == {10};
  }
}
