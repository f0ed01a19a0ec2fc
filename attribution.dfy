/** Attribution of a virtual function to its owning class: the canonical
    method name, the check that spares names a debug database supplied, and
    the rename-or-comment decision against an abstract code model. */
module Attribution {
  import opened Rtti
  import opened Numerals

  // ---------------------------------------------------------------------
  // Strings

  predicate StartsWith(s: string, prefix: string)
  {
    |prefix| <= |s| && s[..|prefix|] == prefix
  }

  /** `t` occurs somewhere in `s` (Python's `t in s`). */
  predicate Contains(s: string, t: string)
    decreases |s|
  {
    StartsWith(s, t) || (|s| > 0 && Contains(s[1..], t))
  }

  /** `t` occurs in `s` at position `i`. */
  predicate OccursAt(s: string, t: string, i: int)
  {
    0 <= i && i + |t| <= |s| && s[i..i + |t|] == t
  }

  /** `t` occurs in `s` at some position: an independent definition of `in`. */
  ghost predicate Occurs(s: string, t: string)
  {
    exists i :: OccursAt(s, t, i)
  }

  lemma {:induction false} ContainsOccurs(s: string, t: string)
    ensures Contains(s, t) <==> Occurs(s, t)
    decreases |s|
  {
    if |s| > 0 {
      ContainsOccurs(s[1..], t);
    }
    if StartsWith(s, t) {
      assert OccursAt(s, t, 0);
    } else if Contains(s, t) {
      var i :| OccursAt(s[1..], t, i);
      assert s[i + 1..i + 1 + |t|] == s[1..][i..i + |t|];
      assert OccursAt(s, t, i + 1);
    }
    if Occurs(s, t) {
      var i :| OccursAt(s, t, i);
      if i > 0 {
        assert s[1..][i - 1..i - 1 + |t|] == s[i..i + |t|];
        assert OccursAt(s[1..], t, i - 1);
      } else {
        assert StartsWith(s, t);
      }
    }
  }

  lemma {:induction false} ContainsInside(a: string, t: string, b: string)
    ensures Contains(a + t + b, t)
    decreases |a|
  {
    if |a| == 0 {
      assert a + t + b == t + b;
      assert (t + b)[..|t|] == t;
    } else {
      ContainsInside(a[1..], t, b);
      assert (a + t + b)[1..] == a[1..] + t + b;
    }
  }

  // ---------------------------------------------------------------------
  // Decimal slot numbers

  lemma {:induction false} LeadingZeros(k: nat, s: string)
    ensures Value(seq(k, _ => '0') + s, 10) == Value(s, 10)
    decreases k, |s|
  {
    var z := seq(k, _ => '0') + s;
    if k > 0 {
      if |s| == 0 {
        LeadingZeros(k - 1, []);
        assert z[..|z| - 1] == seq(k - 1, _ => '0') + [];
        assert z[|z| - 1] == '0';
      } else {
        assert z[..|z| - 1] == seq(k, _ => '0') + s[..|s| - 1];
        assert z[|z| - 1] == s[|s| - 1];
        LeadingZeros(k, s[..|s| - 1]);
      }
    } else {
      assert z == s;
    }
  }

  /** Python's `f'{n:03}'`: decimal, zero-padded to at least three digits. */
  function Pad3(n: nat): (s: string)
    ensures |s| >= 3
    ensures forall i :: 0 <= i < |s| ==> '0' <= s[i] <= '9'
    ensures Value(s, 10) == n
    ensures |s| == 3 || s[0] != '0'
  {
    var d := Digits(n, 10);
    DecimalDigits(n);
    DigitsValue(n, 10);
    LeadingDigit(n);
    if |d| < 3 then
      LeadingZeros(3 - |d|, d);
      seq(3 - |d|, _ => '0') + d
    else d
  }

  /** A decimal numeral of two or more digits does not start with '0'. */
  lemma {:induction false} LeadingDigit(n: nat)
    ensures |Digits(n, 10)| > 1 ==> Digits(n, 10)[0] != '0'
    decreases n
  {
    if n >= 10 {
      LeadingDigit(n / 10);
      assert Digits(n, 10)[0] == Digits(n / 10, 10)[0];
    }
  }

  lemma {:induction false} DecimalDigits(n: nat)
    ensures forall i :: 0 <= i < |Digits(n, 10)| ==> '0' <= Digits(n, 10)[i] <= '9'
    decreases n
  {
    if n >= 10 {
      DecimalDigits(n / 10);
    }
  }

  // ---------------------------------------------------------------------
  // Names

  /** The name given to a virtual function owned by `className` at slot `index`. */
  function CanonicalName(className: string, index: nat): string
  {
    className + "::Method" + Pad3(index)
  }

  /** A canonical name splits into the class name, "::Method" and the
      three-digit-padded decimal numeral of the slot index. */
  lemma CanonicalNameParts(className: string, index: nat)
    ensures var s := CanonicalName(className, index);
      && |s| >= |className| + 11
      && s[..|className|] == className && s[|className|..|className| + 8] == "::Method"
      && var numeral := s[|className| + 8..];
         && Value(numeral, 10) == index
         && (forall i :: 0 <= i < |numeral| ==> '0' <= numeral[i] <= '9')
         && (|numeral| == 3 || numeral[0] != '0')
  {
    var s := CanonicalName(className, index);
    assert s[..|className|] == className;
    assert s[|className|..|className| + 8] == "::Method";
    assert s[|className| + 8..] == Pad3(index);
  }

  /** The name the disassembler gives a function it defines itself. */
  function AutoName(addr: nat): string
  {
    "sub_" + Digits(addr, 16)
  }

  /** No debug database named this function: it still has an automatic
      name, or its name is not qualified by a class. */
  predicate FuncNameNotDefinedByPDB(name: string)
    ensures FuncNameNotDefinedByPDB(name) <==>
      (|name| >= 4 && name[..4] == "sub_") || !Occurs(name, "::")
  {
    ContainsOccurs(name, "::");
    StartsWith(name, "sub_") || !Contains(name, "::")
  }

  /** A function with this name gets renamed rather than commented: its
      name did not come from a debug database, or an earlier attribution
      gave it. */
  predicate Overwrites(name: string)
    ensures Overwrites(name) <==>
      (|name| >= 4 && name[..4] == "sub_") || !Occurs(name, "::") || Occurs(name, "::Method")
  {
    ContainsOccurs(name, "::Method");
    FuncNameNotDefinedByPDB(name) || Contains(name, "::Method")
  }

  lemma CanonicalNameExample()
    ensures CanonicalName("Base", 7) == "Base::Method007"
  {
    assert Digits(7, 10) == "7";
  }

  /** Different slots give different names. */
  lemma CanonicalNameInjective(className: string, i: nat, j: nat)
    requires CanonicalName(className, i) == CanonicalName(className, j)
    ensures i == j
  {
    var p := className + "::Method";
    assert CanonicalName(className, i) == p + Pad3(i);
    assert (p + Pad3(i))[|p|..] == Pad3(i);
    assert (p + Pad3(j))[|p|..] == Pad3(j);
  }

  /** A canonical name is renamed again, never commented on. */
  lemma CanonicalOverwrites(className: string, index: nat)
    ensures Overwrites(CanonicalName(className, index))
  {
    ContainsInside(className, "::Method", Pad3(index));
  }

  /** A function the disassembler named itself is renamed. */
  lemma AutoNameOverwrites(addr: nat)
    ensures Overwrites(AutoName(addr))
  {
    assert AutoName(addr)[..4] == "sub_";
  }

  // ---------------------------------------------------------------------
  // The code model

  /** The fixed part of the binary: its address range and the addresses
      at which defining a new function succeeds. */
  datatype Layout = Layout(start: nat, end: int, creatable: set<int>)

  /** The mutable part: the functions defined (by start address, with their
      names) and the comments at addresses. */
  datatype CodeState = CodeState(names: map<int, string>, comments: map<int, string>)

  /** `addr` lies in the binary; both ends are included. */
  predicate InRange(l: Layout, addr: int)
  {
    !(addr > l.end || addr < l.start)
  }

  /** The function at `addr` carries `name` as its name or as the comment at its start. */
  predicate Attributed(st: CodeState, addr: int, name: string)
  {
    addr in st.names &&
    (st.names[addr] == name || (addr in st.comments && st.comments[addr] == name))
  }

  /** `st` and `st'` agree at address `a`. */
  predicate SameAt(st: CodeState, st': CodeState, a: int)
  {
    (a in st.names <==> a in st'.names) && (a in st.names ==> st.names[a] == st'.names[a]) &&
    (a in st.comments <==> a in st'.comments) && (a in st.comments ==> st.comments[a] == st'.comments[a])
  }

  /** Whether attributing the function at `addr` to class `lca` at slot
      `index` succeeds, and the code state afterwards. */
  function RenameOutcome(l: Layout, st: CodeState, t: Tables, addr: int, lca: int, index: nat): (r: (bool, CodeState))
    requires InRange(l, addr) ==> lca in t.baseClassDescriptors
    ensures r.0 <==> InRange(l, addr) && (addr in st.names || addr in l.creatable)
    ensures !r.0 ==> r.1 == st
    ensures r.0 ==> Attributed(r.1, addr, CanonicalName(t.baseClassDescriptors[lca].className, index))
    ensures forall a :: a != addr ==> SameAt(st, r.1, a)
  {
    if addr > l.end || addr < l.start then (false, st)
    else
      var canon := CanonicalName(t.baseClassDescriptors[lca].className, index);
      if addr !in st.names && addr !in l.creatable then (false, st)
      else
        var name := if addr in st.names then st.names[addr] else AutoName(addr);
        if Overwrites(name) then (true, st.(names := st.names[addr := canon]))
        else (true, st.(comments := st.comments[addr := canon]))
  }

  /** A defined function is renamed exactly when its name may be
      overwritten, and otherwise keeps its name and gets the comment; a
      newly defined function is always renamed. */
  lemma RenameOrComment(l: Layout, st: CodeState, t: Tables, addr: int, lca: int, index: nat)
    requires InRange(l, addr) && lca in t.baseClassDescriptors
    requires addr in st.names || addr in l.creatable
    ensures var canon := CanonicalName(t.baseClassDescriptors[lca].className, index);
      var st' := RenameOutcome(l, st, t, addr, lca, index).1;
      if addr !in st.names || Overwrites(st.names[addr]) then
        st' == st.(names := st.names[addr := canon])
      else
        st' == st.(comments := st.comments[addr := canon])
  {
    if addr !in st.names {
      AutoNameOverwrites(addr);
    }
  }

  /** Attributing the same function twice changes nothing the second time. */
  lemma RenameIdempotent(l: Layout, st: CodeState, t: Tables, addr: int, lca: int, index: nat)
    requires InRange(l, addr) ==> lca in t.baseClassDescriptors
    ensures var st' := RenameOutcome(l, st, t, addr, lca, index).1;
      RenameOutcome(l, st', t, addr, lca, index) == (RenameOutcome(l, st, t, addr, lca, index).0, st')
  {
    var st' := RenameOutcome(l, st, t, addr, lca, index).1;
    if RenameOutcome(l, st, t, addr, lca, index).0 {
      var canon := CanonicalName(t.baseClassDescriptors[lca].className, index);
      if addr !in st.names || Overwrites(st.names[addr]) {
        RenameOrComment(l, st, t, addr, lca, index);
        CanonicalOverwrites(t.baseClassDescriptors[lca].className, index);
        assert st'.names[addr := canon] == st'.names;
      } else {
        assert st'.names[addr] == st.names[addr];
        assert st'.comments[addr := canon] == st'.comments;
      }
    }
  }

  /** What attributing does at `addr` depends only on the state at `addr`. */
  lemma RenameLocal(l: Layout, st1: CodeState, st2: CodeState, t: Tables, addr: int, lca: int, index: nat)
    requires InRange(l, addr) ==> lca in t.baseClassDescriptors
    requires SameAt(st1, st2, addr)
    ensures var r1, r2 := RenameOutcome(l, st1, t, addr, lca, index), RenameOutcome(l, st2, t, addr, lca, index);
      r1.0 == r2.0 && SameAt(r1.1, r2.1, addr)
  {
  }

  /** The binary under analysis, as far as attribution sees and changes it. */
  class CodeModel {
    const layout: Layout
    var state: CodeState

    constructor(layout: Layout, state: CodeState)
      ensures this.layout == layout && this.state == state
    {
      this.layout := layout;
      this.state := state;
    }

    /** Attributes the function at `vtableFunction` to class `lca` at slot
        `functionIndex`: defines the function if there is none, then renames
        it or comments on it. False when the address is outside the binary
        or no function can be defined there. */
    method RenameFunction(t: Tables, vtableFunction: int, lca: int, functionIndex: nat) returns (ok: bool)
      requires InRange(layout, vtableFunction) ==> lca in t.baseClassDescriptors
      modifies this
      ensures (ok, state) == RenameOutcome(layout, old(state), t, vtableFunction, lca, functionIndex)
    {
      if vtableFunction > layout.end || vtableFunction < layout.start {
        return false;
      }
      var className := t.baseClassDescriptors[lca].className;
      var newFuncName := CanonicalName(className, functionIndex);
      var name: string;
      if vtableFunction in state.names {
        name := state.names[vtableFunction];
      } else if vtableFunction in layout.creatable {
        name := AutoName(vtableFunction);
        state := state.(names := state.names[vtableFunction := name]);
        AutoNameOverwrites(vtableFunction);
      } else {
        // creating the function failed; the exception handler reports failure
        return false;
      }
      if Overwrites(name) {
        state := state.(names := state.names[vtableFunction := newFuncName]);
        assert state.names == old(state).names[vtableFunction := newFuncName];
      } else {
        state := state.(comments := state.comments[vtableFunction := newFuncName]);
      }
      RenameOrComment(layout, old(state), t, vtableFunction, lca, functionIndex);
      ok := true;
    }
  }
}
