/** The pre-parsed MSVC RTTI tables that the inference engine reads.
    They are keyed by the address of each record and never change while the
    engine runs, so they are passed around as one immutable value. */
module Rtti {
  import opened Numerals

  datatype Option<T> = None | Some(value: T)

  /** A base-class descriptor: one class as it appears in some hierarchy. */
  datatype BaseClassDescriptor = BaseClassDescriptor(
    className: string,
    // number of entries that follow this one in a base-class array and
    // belong to this class's own (flattened) bases, as hexadecimal text
    numContainedBases: string,
    // address of the class-hierarchy descriptor of this class, as
    // hexadecimal text
    pClassDescriptor: string)

  /** A class-hierarchy descriptor: its pre-order flattened base-class array;
      element 0 is the class itself. */
  datatype ClassHierarchyDescriptor = ClassHierarchyDescriptor(baseClassArray: seq<int>)

  /** A complete-object locator: the header of one vtable. */
  datatype CompleteObjectLocator = CompleteObjectLocator(
    pClassHierarchyDescriptor: int,
    // the vtable's function addresses; the slot index is the position
    functions: seq<int>)

  datatype Tables = Tables(
    baseClassDescriptors: map<int, BaseClassDescriptor>,
    classHierarchyDescriptors: map<int, ClassHierarchyDescriptor>,
    completeObjectLocators: map<int, CompleteObjectLocator>)

  /** The record's `pClassDescriptor` is hexadecimal text naming a
      hierarchy descriptor of the tables. */
  predicate PointsToHierarchy(t: Tables, bcd: BaseClassDescriptor)
  {
    HexNumeral(bcd.pClassDescriptor) && HexValue(bcd.pClassDescriptor) in t.classHierarchyDescriptors
  }

  /** Base-class array of the hierarchy that the base-class descriptor `bcd` points to. */
  function GetBaseClassArrayFromBcd(t: Tables, bcd: BaseClassDescriptor): (arr: seq<int>)
    requires PointsToHierarchy(t, bcd)
    ensures arr == t.classHierarchyDescriptors[HexValue(bcd.pClassDescriptor)].baseClassArray
    ensures |arr| > 0 ==> arr[0] == GetClassDescriptorFromChd(t, HexValue(bcd.pClassDescriptor))
  {
    t.classHierarchyDescriptors[HexValue(bcd.pClassDescriptor)].baseClassArray
  }

  /** A record whose `pClassDescriptor` is the address `chd` written in
      hexadecimal (as `hex` writes it, or without the prefix) leads to the
      array of the hierarchy descriptor at `chd`. */
  lemma BaseClassArrayOfHex(t: Tables, bcd: BaseClassDescriptor, chd: int, prefixed: bool)
    requires bcd.pClassDescriptor == HexText(chd, prefixed) && chd in t.classHierarchyDescriptors
    ensures PointsToHierarchy(t, bcd)
    ensures GetBaseClassArrayFromBcd(t, bcd) == t.classHierarchyDescriptors[chd].baseClassArray
  {
    HexRoundTrip(chd, prefixed);
  }

  /** The class (its base-class descriptor) that a hierarchy descriptor describes. */
  function GetClassDescriptorFromChd(t: Tables, chd: int): (c: int)
    requires chd in t.classHierarchyDescriptors
    requires |t.classHierarchyDescriptors[chd].baseClassArray| > 0
    ensures c in t.classHierarchyDescriptors[chd].baseClassArray
  {
    t.classHierarchyDescriptors[chd].baseClassArray[0]
  }

  /** `bcdAddr` is a base-class descriptor whose `numContainedBases` is
      hexadecimal text. */
  predicate Counted(t: Tables, bcdAddr: int)
  {
    bcdAddr in t.baseClassDescriptors && HexNumeral(t.baseClassDescriptors[bcdAddr].numContainedBases)
  }

  /** The number of entries after the descriptor's own that belong to its
      bases, read from the record's hexadecimal text. */
  function GetNumberOfBaseClasses(t: Tables, bcdAddr: int): int
    requires Counted(t, bcdAddr)
  {
    HexValue(t.baseClassDescriptors[bcdAddr].numContainedBases)
  }

  /** The decoded `numContainedBases` of every descriptor whose count is
      hexadecimal text: what `GetNumberOfBaseClasses` returns, as a map. */
  type Counts = map<int, int>

  function CountsOf(t: Tables): Counts
  {
    map k | k in t.baseClassDescriptors && Counted(t, k) :: GetNumberOfBaseClasses(t, k)
  }

  /** A descriptor in `CountsOf(t)` can be read, and reads as its entry there. */
  lemma CountOf(t: Tables, bcdAddr: int)
    requires bcdAddr in CountsOf(t)
    ensures Counted(t, bcdAddr) && GetNumberOfBaseClasses(t, bcdAddr) == CountsOf(t)[bcdAddr]
  {
  }

  /** A count written in hexadecimal (as `hex` writes it, or without the
      prefix) reads back as that count, negative ones included. */
  lemma NumberOfBaseClassesOfHex(t: Tables, bcdAddr: int, n: int, prefixed: bool)
    requires bcdAddr in t.baseClassDescriptors
    requires t.baseClassDescriptors[bcdAddr].numContainedBases == HexText(n, prefixed)
    ensures Counted(t, bcdAddr) && GetNumberOfBaseClasses(t, bcdAddr) == n
  {
    HexRoundTrip(n, prefixed);
  }

  /** A non-empty set has an element (lets a loop pick one with `:|`). */
  lemma HasElement(s: set<int>)
    requires s != {}
    ensures exists x :: x in s
  {
    if forall x :: x !in s {
      assert false;
    }
  }

  /** A non-empty set of pairs has an element. */
  lemma HasPair(s: set<(int, int)>)
    requires s != {}
    ensures exists p :: p in s
  {
    if forall p :: p !in s {
      assert false;
    }
  }
}
