/** Deciding which class owns each virtual function and attributing it:
    functions recorded at several slot indices are ambiguous and left
    alone; every other function goes to the lowest common ancestor of the
    classes that install it. */
module VtableFunctions {
  import opened Rtti
  import opened VirtualFunctionMap
  import opened CommonAncestor
  import opened Attribution

  /** The class of every locator whose vtable holds a function is a known
      base-class descriptor. */
  ghost predicate ClassesKnown(t: Tables)
  {
    LocatorsReady(t) &&
    forall a :: HasSlots(t, a) ==> ClassOf(t, a) in t.baseClassDescriptors
  }

  /** Every class the oracle names is a known base-class descriptor. */
  ghost predicate OracleKnown(t: Tables, lca: Oracle)
  {
    forall u, v :: lca(u, v).Some? ==> lca(u, v).value in t.baseClassDescriptors
  }

  /** The function `f` is recorded at more than one slot index. */
  predicate Ambiguous(m: SlotMap, f: int)
  {
    f in m && |m[f]| > 1
  }

  /** The owner chosen for a list of installing classes: its only element,
      the contracted common ancestor of a longer list (0 when the
      contraction leaves nothing), and 0 for an empty list. */
  ghost predicate OwnerChoice(classList: seq<int>, lca: Oracle, owner: int)
  {
    if |classList| > 1 then
      var final := Contract(Elements(classList), lca, SafetyLimit);
      (final == {} ==> owner == 0) && (final != {} ==> owner in final)
    else if |classList| == 1 then owner == classList[0]
    else owner == 0
  }

  /** The state at `f` is what attributing `f` at slot `k` to `owner`
      leaves, starting from `st0`; owner 0 means no attribution. */
  ghost predicate OwnedBy(t: Tables, l: Layout, st0: CodeState, st: CodeState, f: int, k: nat, owner: int)
  {
    && (owner == 0 ==> SameAt(st0, st, f))
    && (owner != 0 ==> (InRange(l, f) ==> owner in t.baseClassDescriptors) &&
                       SameAt(RenameOutcome(l, st0, t, f, owner, k).1, st, f))
  }

  /** The state at `f` is what attributing `f` at slot `k` to some chosen
      owner of `classList` leaves, starting from `st0`. */
  ghost predicate Owned(t: Tables, classList: seq<int>, lca: Oracle, l: Layout,
                        st0: CodeState, st: CodeState, f: int, k: nat)
  {
    exists owner :: OwnerChoice(classList, lca, owner) && OwnedBy(t, l, st0, st, f, k, owner)
  }

  /** `f` is installed at `k` and at no other slot. */
  ghost predicate SoleSlot(t: Tables, order: seq<int>, f: int, k: int)
    requires LocatorsReady(t) && Enumerates(t, order)
  {
    Installers(t, order, f, k) != [] &&
    forall k' :: k' != k ==> Installers(t, order, f, k') == []
  }

  /** Collects, in some order of the functions, those recorded at more
      than one slot index; each function's slot map is first copied into
      `indices`, and the size of the copy decides. */
  method FindAmbiguousFunctions(m: SlotMap) returns (ambiguous: seq<int>)
    ensures forall f :: f in ambiguous <==> Ambiguous(m, f)
  {
    ambiguous := [];
    var pending := m.Keys;
    while pending != {}
      invariant pending <= m.Keys
      invariant forall f :: f in ambiguous <==> Ambiguous(m, f) && f !in pending
      decreases |pending|
    {
      HasElement(pending);
      var vfunc :| vfunc in pending;
      var info := m[vfunc];
      var indices := CopySlots(info);
      ghost var before := ambiguous;
      if |indices| > 1 {
        ambiguous := ambiguous + [vfunc];
      }
      AmbiguousStep(m, pending, vfunc, before, ambiguous);
      pending := pending - {vfunc};
    }
  }

  /** The copy of one function's slot map that the classifier measures,
      made slot by slot with the class lists appended to fresh lists. */
  method CopySlots(info: map<int, seq<int>>) returns (indices: map<int, seq<int>>)
    ensures indices.Keys == info.Keys
    ensures forall idx :: idx in indices ==> indices[idx] == info[idx]
  {
    indices := map[];
    var idxPending := info.Keys;
    while idxPending != {}
      invariant idxPending <= info.Keys
      invariant forall idx :: idx in indices <==> idx in info && idx !in idxPending
      invariant forall idx :: idx in indices ==> indices[idx] == info[idx]
      decreases |idxPending|
    {
      HasElement(idxPending);
      var idx :| idx in idxPending;
      var classList := info[idx];
      if idx in indices {
        // the keys of a map are distinct: an index is never seen twice
        assert false;
      } else {
        indices := indices[idx := [] + classList];
      }
      idxPending := idxPending - {idx};
    }
    SameKeys(indices.Keys, info.Keys);
  }

  lemma SameKeys(a: set<int>, b: set<int>)
    requires forall k :: k in a <==> k in b
    ensures a == b
  {
    forall k
      ensures k in a <==> k in b
    {
    }
  }

  /** One more function classified: the list stays exactly the ambiguous
      functions already handled. */
  lemma AmbiguousStep(m: SlotMap, pending: set<int>, vfunc: int, before: seq<int>, after: seq<int>)
    requires vfunc in pending && vfunc in m
    requires forall f :: f in before <==> Ambiguous(m, f) && f !in pending
    requires after == if |m[vfunc]| > 1 then before + [vfunc] else before
    ensures forall f :: f in after <==> Ambiguous(m, f) && f !in pending - {vfunc}
  {
  }

  /** The state at `f` is settled: a function at exactly one slot has been
      attributed to its recorded owner, any other is unchanged. */
  ghost predicate Settled(t: Tables, m: SlotMap, l: Layout, st0: CodeState, st: CodeState,
                          owners: map<int, int>, f: int)
  {
    if f in m && |m[f]| == 1 then
      f in owners && forall k :: k in m[f] && 0 <= k ==> OwnedBy(t, l, st0, st, f, k, owners[f])
    else SameAt(st0, st, f)
  }

  /** Attributes every function that is not ambiguous to the owner of its
      slot's class list, in some order of the functions. `owners` records
      the owner chosen for each function installed at one slot only; the
      state at that function is what attributing it to that owner leaves.
      `attempted` holds the functions handed to the renamer: exactly those
      whose chosen owner is not 0. */
  method DefinevTableFunctions(t: Tables, order: seq<int>, lca: Oracle, code: CodeModel)
    returns (ghost attempted: set<int>, ghost owners: map<int, int>)
    requires ClassesKnown(t) && Enumerates(t, order) && OracleKnown(t, lca)
    modifies code
    ensures forall f :: (forall k :: !SoleSlot(t, order, f, k)) ==> SameAt(old(code.state), code.state, f)
    ensures forall f, k :: 0 <= k && SoleSlot(t, order, f, k) ==>
      Owned(t, Installers(t, order, f, k), lca, code.layout, old(code.state), code.state, f, k)
    ensures forall f, k :: 0 <= k && SoleSlot(t, order, f, k) ==>
      f in owners && OwnedBy(t, code.layout, old(code.state), code.state, f, k, owners[f])
    ensures forall f :: f in attempted ==> exists k :: SoleSlot(t, order, f, k)
    ensures forall f, k :: SoleSlot(t, order, f, k) ==>
      f in owners && OwnerChoice(Installers(t, order, f, k), lca, owners[f]) &&
      (f in attempted <==> owners[f] != 0)
  {
    var mappedFunctions := MapAllVirtualFunctions(t, order);
    var ambiguousFunctions := FindAmbiguousFunctions(mappedFunctions);
    attempted, owners := {}, map[];
    var pending := mappedFunctions.Keys;
    while pending != {}
      invariant pending <= mappedFunctions.Keys
      invariant Progress(t, mappedFunctions, code.layout, old(code.state), code.state, owners, pending)
      invariant Recorded(mappedFunctions, lca, owners, attempted, pending)
      decreases |pending|
    {
      HasElement(pending);
      var vtableFunction :| vtableFunction in pending;
      attempted, owners := DefineFunction(t, order, mappedFunctions, ambiguousFunctions, lca, code,
                                          old(code.state), pending, owners, attempted, vtableFunction);
      pending := pending - {vtableFunction};
    }
    AttemptedOwners(t, order, mappedFunctions, lca, owners, attempted);
    SettledMeansSoleSlot(t, order, mappedFunctions, lca, code.layout, old(code.state), code.state, owners);
  }

  /** One round of the loop of `DefinevTableFunctions`: attributes
      `vtableFunction` unless it is ambiguous, and records whether it was
      handed to the renamer and which owner was chosen for it. */
  method DefineFunction(t: Tables, order: seq<int>, m: SlotMap, ambiguous: seq<int>, lca: Oracle,
                        code: CodeModel, ghost st0: CodeState, ghost pending: set<int>,
                        ghost owners: map<int, int>, ghost attempted: set<int>, vtableFunction: int)
    returns (ghost attempted': set<int>, ghost owners': map<int, int>)
    requires ClassesKnown(t) && Enumerates(t, order) && OracleKnown(t, lca)
    requires forall f, k :: f in m && k in m[f] <==> Installers(t, order, f, k) != []
    requires forall f, k :: f in m && k in m[f] ==> m[f][k] == Installers(t, order, f, k)
    requires forall f :: f in m ==> |m[f]| > 0
    requires forall f :: f in ambiguous <==> Ambiguous(m, f)
    requires vtableFunction in pending && pending <= m.Keys
    requires Progress(t, m, code.layout, st0, code.state, owners, pending)
    requires Recorded(m, lca, owners, attempted, pending)
    modifies code
    ensures Progress(t, m, code.layout, st0, code.state, owners', pending - {vtableFunction})
    ensures Recorded(m, lca, owners', attempted', pending - {vtableFunction})
  {
    var info := m[vtableFunction];
    ghost var st1 := code.state;
    ghost var called, owner := false, 0;
    if vtableFunction !in ambiguous {
      called, owner := AttributeFunction(t, order, vtableFunction, info, lca, code);
      RecordedStep(m, info, lca, owners, attempted, pending, vtableFunction, owner, called);
      ghost var k0 := SingleKey(info.Keys);
      SlotIndexNonNegative(t, order, vtableFunction, k0);
      SettledHere(t, m, code.layout, st0, st1, code.state, owners, vtableFunction, k0, owner);
    } else {
      RecordedStep(m, info, lca, owners, attempted, pending, vtableFunction, owner, called);
    }
    AttributeStep(t, m, code.layout, st0, st1, code.state, owners, pending, vtableFunction, owner);
    attempted' := if called then attempted + {vtableFunction} else attempted;
    owners' := owners[vtableFunction := owner];
  }

  /** The owner recorded for `f` is a choice for each of its slot lists,
      and `f` was handed to the renamer exactly when that owner is not 0. */
  ghost predicate Chosen(info: map<int, seq<int>>, lca: Oracle, owners: map<int, int>, attempted: set<int>, f: int)
  {
    f in owners && (forall k :: k in info ==> OwnerChoice(info[k], lca, owners[f])) &&
    (f in attempted <==> owners[f] != 0)
  }

  lemma AttemptedOwners(t: Tables, order: seq<int>, m: SlotMap, lca: Oracle,
                        owners: map<int, int>, attempted: set<int>)
    requires LocatorsReady(t) && Enumerates(t, order)
    requires forall f, k :: f in m && k in m[f] <==> Installers(t, order, f, k) != []
    requires forall f, k :: f in m && k in m[f] ==> m[f][k] == Installers(t, order, f, k)
    requires Recorded(m, lca, owners, attempted, {})
    ensures forall f, k :: SoleSlot(t, order, f, k) ==>
      f in owners && OwnerChoice(Installers(t, order, f, k), lca, owners[f]) &&
      (f in attempted <==> owners[f] != 0)
  {
    forall f, k | SoleSlot(t, order, f, k)
      ensures f in owners && OwnerChoice(Installers(t, order, f, k), lca, owners[f]) &&
        (f in attempted <==> owners[f] != 0)
    {
      AttemptedAt(t, order, m, lca, owners, attempted, f, k);
    }
  }

  lemma AttemptedAt(t: Tables, order: seq<int>, m: SlotMap, lca: Oracle,
                    owners: map<int, int>, attempted: set<int>, f: int, k: int)
    requires LocatorsReady(t) && Enumerates(t, order)
    requires forall f, k :: f in m && k in m[f] <==> Installers(t, order, f, k) != []
    requires forall f, k :: f in m && k in m[f] ==> m[f][k] == Installers(t, order, f, k)
    requires Recorded(m, lca, owners, attempted, {})
    requires SoleSlot(t, order, f, k)
    ensures f in owners && OwnerChoice(Installers(t, order, f, k), lca, owners[f])
    ensures f in attempted <==> owners[f] != 0
  {
    SingleOfSoleSlot(t, order, m, f, k);
    assert Chosen(m[f], lca, owners, attempted, f);
    assert k in m[f] && m[f][k] == Installers(t, order, f, k);
  }

  /** What the loop has recorded about the functions handled so far: the
      functions handed to the renamer have one slot and are handled, and
      every handled function with one slot has its chosen owner recorded. */
  ghost predicate Recorded(m: SlotMap, lca: Oracle, owners: map<int, int>, attempted: set<int>, pending: set<int>)
  {
    && (forall f :: f in attempted ==> f in m && |m[f]| == 1 && f !in pending)
    && (forall f :: f in m && f !in pending && |m[f]| == 1 ==> Chosen(m[f], lca, owners, attempted, f))
  }

  lemma RecordedStep(m: SlotMap, info: map<int, seq<int>>, lca: Oracle, owners: map<int, int>,
                     attempted: set<int>, pending: set<int>, f: int, owner: int, called: bool)
    requires Recorded(m, lca, owners, attempted, pending) && f in pending && f in m && m[f] == info
    requires |info| == 1 ==> (forall k :: k in info ==> OwnerChoice(info[k], lca, owner)) && (called <==> owner != 0)
    requires |info| != 1 ==> !called
    ensures Recorded(m, lca, owners[f := owner], if called then attempted + {f} else attempted, pending - {f})
  {
    var owners', attempted' := owners[f := owner], if called then attempted + {f} else attempted;
    forall g | g in m && g !in pending - {f} && |m[g]| == 1
      ensures Chosen(m[g], lca, owners', attempted', g)
    {
      if g != f {
        assert Chosen(m[g], lca, owners, attempted, g);
      }
    }
  }

  /** Attributes one function that is not ambiguous: its only slot's class
      list gives the owner, and an owner other than 0 is handed to the
      renamer (`called`). */
  method AttributeFunction(t: Tables, order: seq<int>, vtableFunction: int, info: map<int, seq<int>>,
                           lca: Oracle, code: CodeModel) returns (ghost called: bool, ghost owner: int)
    requires ClassesKnown(t) && Enumerates(t, order) && OracleKnown(t, lca)
    requires |info| == 1
    requires forall k :: k in info ==>
      Installers(t, order, vtableFunction, k) != [] && info[k] == Installers(t, order, vtableFunction, k)
    modifies code
    ensures forall k :: k in info && 0 <= k ==>
      Owned(t, info[k], lca, code.layout, old(code.state), code.state, vtableFunction, k)
    ensures forall k :: k in info && 0 <= k ==>
      OwnedBy(t, code.layout, old(code.state), code.state, vtableFunction, k, owner)
    ensures forall a :: a != vtableFunction ==> SameAt(old(code.state), code.state, a)
    ensures forall k :: k in info ==> OwnerChoice(info[k], lca, owner)
    ensures called <==> owner != 0
  {
    called, owner := false, 0;
    ghost var k0 := SingleKey(info.Keys);
    SlotIndexNonNegative(t, order, vtableFunction, k0);
    var idxPending := info.Keys;
    while idxPending != {}
      invariant idxPending <= info.Keys == {k0}
      invariant idxPending != {} ==> code.state == old(code.state)
      invariant idxPending == {} ==> Owned(t, info[k0], lca, code.layout, old(code.state), code.state, vtableFunction, k0)
      invariant idxPending == {} ==> OwnedBy(t, code.layout, old(code.state), code.state, vtableFunction, k0, owner)
      invariant forall a :: a != vtableFunction ==> SameAt(old(code.state), code.state, a)
      invariant idxPending != {} ==> !called
      invariant idxPending == {} ==> OwnerChoice(info[k0], lca, owner) && (called <==> owner != 0)
      decreases |idxPending|
    {
      HasElement(idxPending);
      var functionIndex :| functionIndex in idxPending;
      assert functionIndex == k0;
      var classList := info[functionIndex];
      InstallersKnown(t, order, vtableFunction, functionIndex);
      var lcaClass: int;
      if |classList| > 1 {
        ghost var rounds: nat;
        lcaClass, rounds := GetLowestCommonAncestor(classList, lca);
      } else if |classList| == 1 {
        lcaClass := classList[0];
      } else {
        lcaClass := 0;
      }
      OwnerKnown(t, classList, lca, lcaClass);
      owner := lcaClass;
      if lcaClass != 0 {
        var ok := code.RenameFunction(t, vtableFunction, lcaClass, functionIndex);
        called := true;
      }
      OwnedNow(t, classList, lca, code.layout, old(code.state), code.state, vtableFunction, k0, lcaClass);
      idxPending := idxPending - {functionIndex};
    }
  }

  /** The loop's progress: functions still pending and addresses outside
      the map are unchanged, handled functions are settled. */
  ghost predicate Progress(t: Tables, m: SlotMap, l: Layout, st0: CodeState, st: CodeState,
                           owners: map<int, int>, pending: set<int>)
  {
    && (forall f :: f in pending || f !in m ==> SameAt(st0, st, f))
    && (forall f :: f in m && f !in pending ==> Settled(t, m, l, st0, st, owners, f))
  }

  /** A set of one element. */
  lemma SingleKey(s: set<int>) returns (k: int)
    requires |s| == 1
    ensures s == {k}
  {
    HasElement(s);
    k :| k in s;
    assert |s - {k}| == 0;
  }

  /** Only a slot that exists in some vtable has installers. */
  lemma {:induction false} SlotIndexNonNegative(t: Tables, order: seq<int>, f: int, k: int)
    requires LocatorsReady(t) && Enumerates(t, order)
    requires Installers(t, order, f, k) != []
    ensures 0 <= k
    decreases |order|
  {
    var front := order[..|order| - 1];
    if Installers(t, front, f, k) != [] {
      SlotIndexNonNegative(t, front, f, k);
    }
  }

  /** Installing classes are known descriptors. */
  lemma {:induction false} InstallersKnown(t: Tables, order: seq<int>, f: int, k: int)
    requires ClassesKnown(t) && Enumerates(t, order)
    ensures forall c :: c in Installers(t, order, f, k) ==> c in t.baseClassDescriptors
    decreases |order|
  {
    if |order| > 0 {
      InstallersKnown(t, order[..|order| - 1], f, k);
    }
  }

  /** A chosen owner other than 0 is a known descriptor, so its class name
      can be looked up. */
  lemma OwnerKnown(t: Tables, classList: seq<int>, lca: Oracle, owner: int)
    requires OracleKnown(t, lca)
    requires forall c :: c in classList ==> c in t.baseClassDescriptors
    requires OwnerChoice(classList, lca, owner)
    ensures owner != 0 ==> owner in t.baseClassDescriptors
  {
    if |classList| > 1 {
      forall c | c in Elements(classList)
        ensures c in t.baseClassDescriptors.Keys
      {
        assert c in classList;
      }
      ContractWithin(Elements(classList), lca, SafetyLimit, t.baseClassDescriptors.Keys);
    }
  }

  lemma OwnedNow(t: Tables, classList: seq<int>, lca: Oracle, l: Layout,
                 st1: CodeState, st: CodeState, f: int, k: nat, owner: int)
    requires OwnerChoice(classList, lca, owner)
    requires owner == 0 ==> st == st1
    requires owner != 0 ==> (InRange(l, f) ==> owner in t.baseClassDescriptors) &&
                            st == RenameOutcome(l, st1, t, f, owner, k).1
    ensures OwnedBy(t, l, st1, st, f, k, owner)
    ensures Owned(t, classList, lca, l, st1, st, f, k)
  {
    assert SameAt(st, st, f);
  }

  /** A function at its only slot, attributed to `owner` from a state that
      agrees with `st0` at that function, is settled relative to `st0`
      once `owner` is recorded for it. */
  lemma SettledHere(t: Tables, m: SlotMap, l: Layout, st0: CodeState, st1: CodeState, st: CodeState,
                    owners: map<int, int>, f: int, k: nat, owner: int)
    requires f in m && m[f].Keys == {k}
    requires SameAt(st0, st1, f)
    requires OwnedBy(t, l, st1, st, f, k, owner)
    ensures Settled(t, m, l, st0, st, owners[f := owner], f)
  {
    if owner != 0 {
      RenameLocal(l, st0, st1, t, f, owner, k);
    }
    assert |m[f]| == |m[f].Keys|;
  }

  /** A settled function stays settled while its address is untouched and
      its recorded owner is kept. */
  lemma SettledFrame(t: Tables, m: SlotMap, l: Layout, st0: CodeState, st: CodeState, st': CodeState,
                     owners: map<int, int>, owners': map<int, int>, f: int)
    requires Settled(t, m, l, st0, st, owners, f) && SameAt(st, st', f)
    requires f in owners ==> f in owners' && owners'[f] == owners[f]
    ensures Settled(t, m, l, st0, st', owners', f)
  {
  }

  /** Handling function `f0` and recording `owner` for it moves it from
      pending to settled. */
  lemma AttributeStep(t: Tables, m: SlotMap, l: Layout, st0: CodeState, st1: CodeState, st2: CodeState,
                      owners: map<int, int>, pending: set<int>, f0: int, owner: int)
    requires f0 in pending && f0 in m
    requires Progress(t, m, l, st0, st1, owners, pending)
    requires forall a :: a != f0 ==> SameAt(st1, st2, a)
    requires |m[f0]| != 1 ==> st2 == st1
    requires |m[f0]| == 1 ==> Settled(t, m, l, st0, st2, owners[f0 := owner], f0)
    ensures Progress(t, m, l, st0, st2, owners[f0 := owner], pending - {f0})
  {
    forall f | f in pending - {f0} || f !in m
      ensures SameAt(st0, st2, f)
    {
      assert SameAt(st0, st1, f) && SameAt(st1, st2, f);
    }
    forall f | f in m && f !in pending - {f0}
      ensures Settled(t, m, l, st0, st2, owners[f0 := owner], f)
    {
      if f != f0 {
        SettledFrame(t, m, l, st0, st1, st2, owners, owners[f0 := owner], f);
      } else if |m[f]| != 1 {
        assert SameAt(st0, st1, f);
      }
    }
  }

  /** A function whose slot map has the single key `k` is installed at `k` only. */
  lemma SoleSlotOfSingle(t: Tables, order: seq<int>, m: SlotMap, f: int, k: int)
    requires LocatorsReady(t) && Enumerates(t, order)
    requires forall f, k :: f in m && k in m[f] <==> Installers(t, order, f, k) != []
    requires f in m && m[f].Keys == {k}
    ensures SoleSlot(t, order, f, k)
  {
    forall k' | k' != k
      ensures Installers(t, order, f, k') == []
    {
      assert k' !in m[f];
    }
  }

  /** And conversely. */
  lemma SingleOfSoleSlot(t: Tables, order: seq<int>, m: SlotMap, f: int, k: int)
    requires LocatorsReady(t) && Enumerates(t, order)
    requires forall f, k :: f in m && k in m[f] <==> Installers(t, order, f, k) != []
    requires SoleSlot(t, order, f, k)
    ensures f in m && m[f].Keys == {k} && |m[f]| == 1
  {
    forall k' | k' in m[f]
      ensures k' == k
    {
      assert Installers(t, order, f, k') != [];
    }
    assert m[f].Keys == {k};
  }

  /** A function is ambiguous exactly when the vtables install it at two
      different slot indices. */
  lemma AmbiguousIffTwoSlots(t: Tables, order: seq<int>, m: SlotMap, f: int)
    requires LocatorsReady(t) && Enumerates(t, order)
    requires forall f, k :: f in m && k in m[f] <==> Installers(t, order, f, k) != []
    ensures Ambiguous(m, f) <==>
      exists k1, k2 :: k1 != k2 && Installers(t, order, f, k1) != [] && Installers(t, order, f, k2) != []
  {
    if Ambiguous(m, f) {
      HasElement(m[f].Keys);
      var k1 :| k1 in m[f].Keys;
      assert |m[f].Keys - {k1}| == |m[f].Keys| - 1;
      HasElement(m[f].Keys - {k1});
      var k2 :| k2 in m[f].Keys - {k1};
      assert Installers(t, order, f, k1) != [] && Installers(t, order, f, k2) != [];
    }
    if exists k1, k2 :: k1 != k2 && Installers(t, order, f, k1) != [] && Installers(t, order, f, k2) != [] {
      var k1, k2 :| k1 != k2 && Installers(t, order, f, k1) != [] && Installers(t, order, f, k2) != [];
      assert {k1, k2} <= m[f].Keys;
      assert |{k1, k2}| == 2;
      SubsetCard({k1, k2}, m[f].Keys);
    }
  }

  lemma {:induction false} SubsetCard(a: set<int>, b: set<int>)
    requires a <= b
    ensures |a| <= |b|
    decreases |b|
  {
    if a != {} {
      HasElement(a);
      var x :| x in a;
      SubsetCard(a - {x}, b - {x});
    }
  }

  /** Once every function is settled, the outcome reads in terms of the
      vtables: functions at one slot are owned by their recorded owner,
      which is a choice for their class list; all others are unchanged. */
  lemma SettledMeansSoleSlot(t: Tables, order: seq<int>, m: SlotMap, lca: Oracle, l: Layout,
                             st0: CodeState, st: CodeState, owners: map<int, int>)
    requires LocatorsReady(t) && Enumerates(t, order)
    requires forall f, k :: f in m && k in m[f] <==> Installers(t, order, f, k) != []
    requires forall f, k :: f in m && k in m[f] ==> m[f][k] == Installers(t, order, f, k)
    requires Progress(t, m, l, st0, st, owners, {})
    requires forall f, k :: SoleSlot(t, order, f, k) ==>
      f in owners && OwnerChoice(Installers(t, order, f, k), lca, owners[f])
    ensures forall f :: (forall k :: !SoleSlot(t, order, f, k)) ==> SameAt(st0, st, f)
    ensures forall f, k :: 0 <= k && SoleSlot(t, order, f, k) ==>
      f in owners && OwnedBy(t, l, st0, st, f, k, owners[f])
    ensures forall f, k :: 0 <= k && SoleSlot(t, order, f, k) ==>
      Owned(t, Installers(t, order, f, k), lca, l, st0, st, f, k)
    ensures forall f :: f in m && |m[f]| == 1 ==> exists k :: SoleSlot(t, order, f, k)
  {
    forall f | f in m && |m[f]| == 1
      ensures exists k :: SoleSlot(t, order, f, k)
    {
      var k := SingleKey(m[f].Keys);
      SoleSlotOfSingle(t, order, m, f, k);
    }
    forall f
      ensures (forall k :: !SoleSlot(t, order, f, k)) ==> SameAt(st0, st, f)
    {
      if f in m && |m[f]| == 1 {
        var k := SingleKey(m[f].Keys);
        SoleSlotOfSingle(t, order, m, f, k);
      }
    }
    forall f, k | 0 <= k && SoleSlot(t, order, f, k)
      ensures f in owners && OwnedBy(t, l, st0, st, f, k, owners[f])
      ensures Owned(t, Installers(t, order, f, k), lca, l, st0, st, f, k)
    {
      SingleOfSoleSlot(t, order, m, f, k);
      assert Settled(t, m, l, st0, st, owners, f);
      assert k in m[f];
      var o := owners[f];
      assert OwnerChoice(Installers(t, order, f, k), lca, o) && OwnedBy(t, l, st0, st, f, k, o);
    }
  }
}
