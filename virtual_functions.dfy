/** The virtual-function mapper: for every function address found in a
    vtable, which classes install it, at which slot index.

    The tables are read in the order the locators are enumerated (`order`,
    the iteration order of the complete-object-locator table); the class of
    a locator is the first entry of its hierarchy's base-class array. */
module VirtualFunctionMap {
  import opened Rtti

  /** function address -> slot index -> classes whose vtable holds the
      function at that slot, in locator order. */
  type SlotMap = map<int, map<int, seq<int>>>

  /** The locator `a` exists and its vtable holds at least one function. */
  predicate HasSlots(t: Tables, a: int)
  {
    a in t.completeObjectLocators && |t.completeObjectLocators[a].functions| > 0
  }

  /** Every locator whose vtable holds a function points to a hierarchy
      descriptor with a non-empty base-class array, so its class can be
      read; the class of a locator with an empty vtable is never read. */
  ghost predicate LocatorsReady(t: Tables)
  {
    forall a :: HasSlots(t, a) ==>
      t.completeObjectLocators[a].pClassHierarchyDescriptor in t.classHierarchyDescriptors &&
      |t.classHierarchyDescriptors[t.completeObjectLocators[a].pClassHierarchyDescriptor].baseClassArray| > 0
  }

  /** Every entry of `order` names a locator. */
  ghost predicate Enumerates(t: Tables, order: seq<int>)
  {
    forall i :: 0 <= i < |order| ==> order[i] in t.completeObjectLocators
  }

  /** The class whose vtable the locator `a` heads. */
  function ClassOf(t: Tables, a: int): int
    requires LocatorsReady(t) && HasSlots(t, a)
  {
    GetClassDescriptorFromChd(t, t.completeObjectLocators[a].pClassHierarchyDescriptor)
  }

  /** The vtable of locator `a` holds function `f` at slot `k`. */
  predicate Installs(t: Tables, a: int, f: int, k: int)
  {
    a in t.completeObjectLocators && 0 <= k < |t.completeObjectLocators[a].functions| &&
    t.completeObjectLocators[a].functions[k] == f
  }

  /** The classes of the locators in `order` that hold `f` at slot `k`, in order. */
  function Installers(t: Tables, order: seq<int>, f: int, k: int): seq<int>
    requires LocatorsReady(t) && Enumerates(t, order)
    decreases |order|
  {
    if |order| == 0 then []
    else
      var a := order[|order| - 1];
      Installers(t, order[..|order| - 1], f, k) + (if Installs(t, a, f, k) then [ClassOf(t, a)] else [])
  }

  /** `m` has an entry for `f` at slot `k` exactly when `p` is non-empty,
      and that entry is `p`. */
  predicate Agrees(m: SlotMap, f: int, k: int, p: seq<int>)
  {
    (f in m && k in m[f] <==> p != []) && (f in m && k in m[f] ==> m[f][k] == p)
  }

  /** `m` holds exactly the lists `Installers` gives for the locators in `order`. */
  ghost predicate Complete(t: Tables, order: seq<int>, m: SlotMap)
    requires LocatorsReady(t) && Enumerates(t, order)
  {
    && (forall f, k :: Agrees(m, f, k, Installers(t, order, f, k)))
    && (forall f :: f in m ==> |m[f]| > 0)
  }

  /** Builds the slot map, one locator at a time and one slot at a time;
      a function already seen gets the new slot index added to its map, and
      a slot already seen gets the class appended to its list. */
  method MapAllVirtualFunctions(t: Tables, order: seq<int>) returns (m: SlotMap)
    requires LocatorsReady(t) && Enumerates(t, order)
    ensures forall f, k :: f in m && k in m[f] <==> Installers(t, order, f, k) != []
    ensures forall f, k :: f in m && k in m[f] ==> m[f][k] == Installers(t, order, f, k)
    ensures forall f :: f in m ==> |m[f]| > 0
  {
    m := map[];
    var n := 0;
    while n < |order|
      invariant 0 <= n <= |order| && Complete(t, order[..n], m)
    {
      PendingStart(t, order[..n], order[n], m);
      m := MapLocator(t, order[..n], order[n], m);
      PendingEnd(t, order, n, m);
      n := n + 1;
    }
    assert order[..|order|] == order;
  }

  /** Scans the vtable of the locator `colAddr`, after the locators `done`:
      each slot's function gets `colAddr`'s class added at that slot. */
  method MapLocator(t: Tables, ghost done: seq<int>, colAddr: int, m0: SlotMap) returns (m: SlotMap)
    requires LocatorsReady(t) && Enumerates(t, done) && colAddr in t.completeObjectLocators
    requires Represents(t, done, colAddr, 0, m0)
    ensures Represents(t, done, colAddr, |t.completeObjectLocators[colAddr].functions|, m)
  {
    m := m0;
    var chdAddr := t.completeObjectLocators[colAddr].pClassHierarchyDescriptor;
    var fs := t.completeObjectLocators[colAddr].functions;
    var functionIndex := 0;
    while functionIndex < |fs|
      invariant 0 <= functionIndex <= |fs|
      invariant Represents(t, done, colAddr, functionIndex, m)
      decreases |fs| - functionIndex
    {
      var functionAddr := fs[functionIndex];
      var c := GetClassDescriptorFromChd(t, chdAddr);
      assert c == ClassOf(t, colAddr);
      ghost var before := m;
      if functionAddr in m && |m[functionAddr]| > 0 {
        if functionIndex in m[functionAddr] && |m[functionAddr][functionIndex]| > 0 {
          m := m[functionAddr := m[functionAddr][functionIndex := m[functionAddr][functionIndex] + [c]]];
        } else {
          m := m[functionAddr := m[functionAddr][functionIndex := [c]]];
        }
      } else {
        m := m[functionAddr := map[functionIndex := [c]]];
      }
      RepresentsStep(t, done, colAddr, functionIndex, before, m);
      functionIndex := functionIndex + 1;
    }
  }

  /** The lists built so far while scanning slot `j` of locator `a`, after
      the locators `done`: the finished lists, plus `a`'s class for the
      slots of `a` already scanned. */
  function Pending(t: Tables, done: seq<int>, a: int, j: int, f: int, k: int): seq<int>
    requires LocatorsReady(t) && Enumerates(t, done) && a in t.completeObjectLocators
  {
    Installers(t, done, f, k) + (if k < j && Installs(t, a, f, k) then [ClassOf(t, a)] else [])
  }

  /** `m` holds exactly the lists `Pending` gives. */
  ghost predicate Represents(t: Tables, done: seq<int>, a: int, j: int, m: SlotMap)
    requires LocatorsReady(t) && Enumerates(t, done) && a in t.completeObjectLocators
  {
    && (forall f, k :: Agrees(m, f, k, Pending(t, done, a, j, f, k)))
    && (forall f :: f in m ==> |m[f]| > 0)
  }

  lemma PendingStart(t: Tables, done: seq<int>, a: int, m: SlotMap)
    requires LocatorsReady(t) && Enumerates(t, done) && a in t.completeObjectLocators
    requires Complete(t, done, m)
    ensures Represents(t, done, a, 0, m)
  {
    assert forall f, k :: Pending(t, done, a, 0, f, k) == Installers(t, done, f, k);
  }

  lemma PendingEnd(t: Tables, order: seq<int>, n: nat, m: SlotMap)
    requires LocatorsReady(t) && Enumerates(t, order) && n < |order|
    requires Represents(t, order[..n], order[n], |t.completeObjectLocators[order[n]].functions|, m)
    ensures Complete(t, order[..n + 1], m)
  {
    var a := order[n];
    var p := order[..n + 1];
    assert p[..|p| - 1] == order[..n] && p[|p| - 1] == a;
    forall f, k
      ensures Pending(t, order[..n], a, |t.completeObjectLocators[a].functions|, f, k) ==
              Installers(t, p, f, k)
    {
    }
  }

  /** Scanning slot `j` of locator `a` appends `a`'s class to the list of
      the function at that slot, whether the function and the slot were
      already in the map or not, and changes no other list. */
  lemma RepresentsStep(t: Tables, done: seq<int>, a: int, j: int, m: SlotMap, m': SlotMap)
    requires LocatorsReady(t) && Enumerates(t, done) && a in t.completeObjectLocators
    requires 0 <= j < |t.completeObjectLocators[a].functions|
    requires Represents(t, done, a, j, m)
    requires var f0, c := t.completeObjectLocators[a].functions[j], ClassOf(t, a);
      m' == if f0 in m && |m[f0]| > 0 then
              (if j in m[f0] && |m[f0][j]| > 0 then m[f0 := m[f0][j := m[f0][j] + [c]]]
               else m[f0 := m[f0][j := [c]]])
            else m[f0 := map[j := [c]]]
    ensures Represents(t, done, a, j + 1, m')
  {
    var f0, c := t.completeObjectLocators[a].functions[j], ClassOf(t, a);
    assert Installs(t, a, f0, j);
    SlotAdded(m, m', f0, j, c);
    forall f, k ensures Pending(t, done, a, j + 1, f, k) ==
        if f == f0 && k == j then Pending(t, done, a, j, f, k) + [c]
        else Pending(t, done, a, j, f, k)
    {
    }
    if !(f0 in m && j in m[f0]) {
      assert Pending(t, done, a, j, f0, j) == [];
    }
    assert m'[f0][j] == Pending(t, done, a, j + 1, f0, j);
    var j' := j + 1;
    forall f, k {:trigger Pending(t, done, a, j', f, k)}
      ensures Agrees(m', f, k, Pending(t, done, a, j', f, k))
    {
      if f != f0 || k != j {
        assert Agrees(m, f, k, Pending(t, done, a, j, f, k));
      }
    }
  }

  /** Adding class `c` at function `f0`, slot `j`, as the mapper does. */
  lemma SlotAdded(m: SlotMap, m': SlotMap, f0: int, j: int, c: int)
    requires forall f :: f in m ==> |m[f]| > 0
    requires m' == if f0 in m && |m[f0]| > 0 then
              (if j in m[f0] && |m[f0][j]| > 0 then m[f0 := m[f0][j := m[f0][j] + [c]]]
               else m[f0 := m[f0][j := [c]]])
            else m[f0 := map[j := [c]]]
    ensures f0 in m' && j in m'[f0]
    ensures m'[f0][j] == (if f0 in m && j in m[f0] then m[f0][j] else []) + [c]
    ensures forall f, k :: f != f0 || k != j ==>
      (f in m' && k in m'[f] <==> f in m && k in m[f])
    ensures forall f, k :: (f != f0 || k != j) && f in m && k in m[f] ==> m'[f][k] == m[f][k]
    ensures forall f :: f in m' ==> |m'[f]| > 0
  {
    if f0 in m && j in m[f0] && |m[f0][j]| == 0 {
      assert m[f0][j] + [c] == [c];
    }
  }

  // ---------------------------------------------------------------------
  // What the lists mean

  /** A class is listed for `f` at slot `k` exactly when some locator of
      that class holds `f` at slot `k`. */
  lemma {:induction false} InstallersMembers(t: Tables, order: seq<int>, f: int, k: int, c: int)
    requires LocatorsReady(t) && Enumerates(t, order)
    ensures c in Installers(t, order, f, k) <==>
      exists i :: 0 <= i < |order| && Installs(t, order[i], f, k) && ClassOf(t, order[i]) == c
    decreases |order|
  {
    if |order| > 0 {
      var front := order[..|order| - 1];
      InstallersMembers(t, front, f, k, c);
      if c in Installers(t, order, f, k) {
        if c !in Installers(t, front, f, k) {
          assert Installs(t, order[|order| - 1], f, k) && ClassOf(t, order[|order| - 1]) == c;
        } else {
          var i :| 0 <= i < |front| && Installs(t, front[i], f, k) && ClassOf(t, front[i]) == c;
          assert order[i] == front[i];
        }
      }
      if exists i :: 0 <= i < |order| && Installs(t, order[i], f, k) && ClassOf(t, order[i]) == c {
        var i :| 0 <= i < |order| && Installs(t, order[i], f, k) && ClassOf(t, order[i]) == c;
        if i < |front| {
          assert front[i] == order[i];
        }
      }
    }
  }

  /** The locators of `order` that hold `f` at slot `k`. */
  ghost function InstallingLocators(t: Tables, order: seq<int>, f: int, k: int): set<int>
  {
    set a | a in order && Installs(t, a, f, k)
  }

  /** When `order` lists each locator once, each list has one entry per
      locator that holds the function at that slot. */
  lemma {:induction false} InstallersCount(t: Tables, order: seq<int>, f: int, k: int)
    requires LocatorsReady(t) && Enumerates(t, order)
    requires forall i, j :: 0 <= i < j < |order| ==> order[i] != order[j]
    ensures |Installers(t, order, f, k)| == |InstallingLocators(t, order, f, k)|
    decreases |order|
  {
    if |order| > 0 {
      var front := order[..|order| - 1];
      var a := order[|order| - 1];
      InstallersCount(t, front, f, k);
      assert order == front + [a];
      assert a !in front;
      if Installs(t, a, f, k) {
        assert InstallingLocators(t, order, f, k) == InstallingLocators(t, front, f, k) + {a};
      } else {
        assert InstallingLocators(t, order, f, k) == InstallingLocators(t, front, f, k);
      }
    } else {
      assert InstallingLocators(t, order, f, k) == {};
    }
  }
  /** The locators of `order` of class `c` that hold `f` at slot `k`. */
  ghost function InstallingLocatorsOf(t: Tables, order: seq<int>, f: int, k: int, c: int): set<int>
    requires LocatorsReady(t)
  {
    set a | a in order && Installs(t, a, f, k) && ClassOf(t, a) == c
  }

  /** When `order` lists each locator once, class `c` occurs in the list for
      `f` at slot `k` once per locator of class `c` that holds `f` there. */
  lemma {:induction false} InstallersCountOf(t: Tables, order: seq<int>, f: int, k: int, c: int)
    requires LocatorsReady(t) && Enumerates(t, order)
    requires forall i, j :: 0 <= i < j < |order| ==> order[i] != order[j]
    ensures multiset(Installers(t, order, f, k))[c] == |InstallingLocatorsOf(t, order, f, k, c)|
    decreases |order|
  {
    if |order| > 0 {
      var front := order[..|order| - 1];
      var a := order[|order| - 1];
      InstallersCountOf(t, front, f, k, c);
      LocatorsOfStep(t, order, f, k, c);
      var last := if Installs(t, a, f, k) then [ClassOf(t, a)] else [];
      CountStep(Installers(t, front, f, k), last, InstallingLocatorsOf(t, front, f, k, c),
                InstallingLocatorsOf(t, order, f, k, c), a, c, Installs(t, a, f, k) && ClassOf(t, a) == c);
    } else {
      assert InstallingLocatorsOf(t, order, f, k, c) == {};
    }
  }

  /** Adding the last locator `a` of `order` adds `a` to the locators of
      class `c` holding `f` at `k` exactly when it is one of them. */
  lemma LocatorsOfStep(t: Tables, order: seq<int>, f: int, k: int, c: int)
    requires LocatorsReady(t) && Enumerates(t, order) && |order| > 0
    requires forall i, j :: 0 <= i < j < |order| ==> order[i] != order[j]
    ensures var front, a := order[..|order| - 1], order[|order| - 1];
      var S := InstallingLocatorsOf(t, front, f, k, c);
      && a !in S
      && InstallingLocatorsOf(t, order, f, k, c) ==
         if Installs(t, a, f, k) && ClassOf(t, a) == c then S + {a} else S
  {
    var front, a := order[..|order| - 1], order[|order| - 1];
    assert order == front + [a];
    assert a !in front;
    var S := InstallingLocatorsOf(t, front, f, k, c);
    var hit := Installs(t, a, f, k) && ClassOf(t, a) == c;
    forall x
      ensures x in InstallingLocatorsOf(t, order, f, k, c) <==> x in S || (hit && x == a)
    {
      assert x in order <==> x in front || x == a;
    }
  }

  /** The count of `c` after appending `last` matches the new locator set. */
  lemma CountStep(before: seq<int>, last: seq<int>, S: set<int>, S': set<int>, a: int, c: int, hit: bool)
    requires multiset(before)[c] == |S| && a !in S
    requires hit ==> last == [c] && S' == S + {a}
    requires !hit ==> multiset(last)[c] == 0 && S' == S
    ensures multiset(before + last)[c] == |S'|
  {
    assert multiset(before + last) == multiset(before) + multiset(last);
  }


}
