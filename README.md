# Class hierarchy deduction from MSVC RTTI

This project models the inference engine of `ClassHierarchyDeduction.py`, a
reverse-engineering plug-in that rebuilds C++ class inheritance from the
MSVC run-time type information of a binary and attributes each virtual
function to the class that owns it. The pre-parsed RTTI tables (base-class
descriptors, class-hierarchy descriptors, complete-object locators) are one
immutable value, `Rtti.Tables`, made of maps keyed by record address. Every
proof below is against that value.

The model has seven modules: numerals, the tables, and one per component of
the engine:

- `Numerals` (numerals.dfy): digit strings. Decimal numerals are used for
  slot numbers in names. Hexadecimal text is read as Python's `int(s, 16)`
  reads it: an optional sign, an optional `0x`, then hexadecimal digits.
  `HexRoundTrip` proves that this reading inverts `hex(n)` and reads bare
  digits as well.
- `Rtti` (rtti.dfy): the tables and the three lookups
  `GetBaseClassArrayFromBcd`, `GetClassDescriptorFromChd` and
  `GetNumberOfBaseClasses`. The records keep `numContainedBases` and
  `pClassDescriptor` as hexadecimal text, and the lookups decode it as
  lines 13 and 146 do. `CountsOf` collects the decoded counts. The walk
  is specified over that map.
- `HierarchyGraph` (hierarchy_graph.dfy): the graph builder. The networkx
  `DiGraph` is a class with a node set and an edge set. `AddNode` and
  `AddEdge` grow them. The recursive walk `CreateBcdHierarchyRecursively` is
  imperative and follows the Python loop and its slices. It is proved
  against `WalkPairs`, a functional description of the (child, parent) index
  pairs the walk produces.
- `VirtualFunctionMap` (virtual_functions.dfy): the mapper. It builds
  `function -> slot index -> classes` by a nested loop over the locators,
  given in the order the locator dictionary is iterated. The result is proved
  equal to `Installers`, a reference definition in terms of the vtables.
- `CommonAncestor` (common_ancestor.dfy): the lowest-common-ancestor
  contraction loop. The pairwise ancestor computation of networkx is an
  oracle parameter, `(int, int) -> Option<int>`. The loop is proved against
  `Contract`, the contraction with a safety limit of 20 rounds. The
  relational properties are stated for a preorder `anc` whose common
  ancestors are the only answers the oracle gives. Soundness (every final
  class is an ancestor of some input) needs nothing more. Coverage, and the
  fact that a single result is an ancestor of every input, also need the
  oracle to answer every pair (`Total`). Without that they fail:
  pairs with no answer simply drop out of a round (lines 49-52), so a
  function shared by unrelated classes can get a single owner that is an
  ancestor of only some of them. `PartialOracleNotCommon` proves this for
  classes 1, 2 and 3, where only 1 and 2 have a common base 10.
- `Attribution` (attribution.dfy): the canonical name
  `<class>::Method<slot, three digits>`, the check that spares names a
  debug database (PDB) defined, and `RenameFunction`. Renaming works on
  `CodeModel`, an abstract model of the binary: an address range,
  the addresses where a function can be created, a map from function
  address to name, and a map from address to comment.
- `VtableFunctions` (vtable_functions.dfy): `DefinevTableFunctions`. It
  classifies ambiguous functions, chooses an owner for every other function
  (its only class, the contracted common ancestor, or 0) and hands it to
  the renamer. Its postcondition is stated against the vtables of the
  locators listed in `order`, the iteration order of the locator table.
  A function those vtables install at one slot ends up attributed as that
  slot's owner dictates. Any other function, ambiguous or absent, is left
  unchanged.

Iteration over a Python `dict` or `set`, and `set.pop()`, are modelled as
arbitrary choice (`:|`). The proved results therefore hold for any iteration
order. The exception is the mapper, whose lists follow the given locator
order. Which classes appear in a list does not depend on that order
(`InstallersMembers`), but their order in the list does.

## Model

| member | source | states |
|---|---|---|
| Rtti.GetClassDescriptorFromChd | RttiInformation/ClassHierarchyInference/ClassHierarchyDeduction.py:16-17 | the class of a hierarchy descriptor is an entry of its base-class array (entry 0) |
| Rtti.BaseClassArrayOfHex | RttiInformation/ClassHierarchyInference/ClassHierarchyDeduction.py:145-146 | a record whose `pClassDescriptor` is a hierarchy address written by `hex` (or without the prefix) leads to that hierarchy's array |
| Rtti.NumberOfBaseClassesOfHex | RttiInformation/ClassHierarchyInference/ClassHierarchyDeduction.py:12-13 | a count stored as `hex(n)` (or without the prefix) is read back as `n`, negative counts included |
| Numerals.HexRoundTrip | RttiInformation/ClassHierarchyInference/ClassHierarchyDeduction.py:12-13 | `int(·, 16)` accepts the text `hex(n)` writes and returns `n`, for every integer, with or without the `0x` prefix |
| Numerals.DigitsValue | RttiInformation/ClassHierarchyInference/ClassHierarchyDeduction.py:78 | the digits of a natural number in any base from 2 to 16 read back as that number |
| HierarchyGraph.DiGraph.constructor | RttiInformation/ClassHierarchyInference/ClassHierarchyDeduction.py:187 | a new graph has no nodes and no edges |
| HierarchyGraph.DiGraph.AddNode | RttiInformation/ClassHierarchyInference/ClassHierarchyDeduction.py:139 | the node set gains exactly the node; the edges are unchanged |
| HierarchyGraph.DiGraph.AddEdge | RttiInformation/ClassHierarchyInference/ClassHierarchyDeduction.py:158 | the edge set gains exactly the edge and the node set gains both endpoints |
| HierarchyGraph.Slice | RttiInformation/ClassHierarchyInference/ClassHierarchyDeduction.py:162 | Python's `arr[i:j]` for a positive end: clipped at the array's end, empty when the end is at or before the start, entries taken in place |
| HierarchyGraph.RangeEnd | RttiInformation/ClassHierarchyInference/ClassHierarchyDeduction.py:159-165 | the sub-range the walk descends into (or skips) ends strictly after the current index and never past the enclosing range, so the walk always advances |
| HierarchyGraph.CreateBcdHierarchyRecursively | RttiInformation/ClassHierarchyInference/ClassHierarchyDeduction.py:149-167 | terminates on a strictly shorter slice; returns exactly max(1, length) for any (even negative) `numContainedBases`; adds exactly the walk's edges and their endpoints and removes nothing |
| HierarchyGraph.CreateAllBaseTypeNodes | RttiInformation/ClassHierarchyInference/ClassHierarchyDeduction.py:137-142 | adds a node for every base-class-descriptor key and nothing else, leaves the edges unchanged, returns true |
| HierarchyGraph.CreateHierarchyGraph | RttiInformation/ClassHierarchyInference/ClassHierarchyDeduction.py:186-196 | the graph has every descriptor key as a node; its edges are exactly the union of the walks of all descriptors' arrays; this depends on the tables alone, not on iteration order |
| HierarchyGraph.WalkShape | RttiInformation/ClassHierarchyInference/ClassHierarchyDeduction.py:152-167 | the walk visits every index after 0 exactly once, in increasing order, and links it to an earlier index whose range covers it |
| HierarchyGraph.WalkInnermost | RttiInformation/ClassHierarchyInference/ClassHierarchyDeduction.py:154-164 | on a well-nested array, each index is linked to the innermost earlier index whose range covers it |
| HierarchyGraph.WalkEdgesExact | RttiInformation/ClassHierarchyInference/ClassHierarchyDeduction.py:154-164 | on a well-nested array, an edge is added iff it runs from an entry to its immediate derived class in the pre-order layout |
| HierarchyGraph.WalkEdgesEnclosed | RttiInformation/ClassHierarchyInference/ClassHierarchyDeduction.py:154-164 | on any array, every edge runs from an entry to an earlier entry whose decoded `numContainedBases` range encloses it |
| HierarchyGraph.WalkNodes | RttiInformation/ClassHierarchyInference/ClassHierarchyDeduction.py:154-157 | the walk's edges touch exactly the entries of the array when it has two or more entries, and nothing otherwise |
| HierarchyGraph.HierarchyEdgesPerHierarchy | RttiInformation/ClassHierarchyInference/ClassHierarchyDeduction.py:188-192 | walking the array once per owning descriptor gives the same edge set as walking each hierarchy descriptor's array once |
| VirtualFunctionMap.MapAllVirtualFunctions | RttiInformation/ClassHierarchyInference/ClassHierarchyDeduction.py:20-40 | function f has slot k in the map iff some vtable holds f at k; that slot's list is the classes of those vtables in locator order; no function has an empty slot map |
| VirtualFunctionMap.MapLocator | RttiInformation/ClassHierarchyInference/ClassHierarchyDeduction.py:26-39 | after one locator's vtable is scanned, the map is exactly the map of the earlier locators with this locator's class appended at every slot of every function in its vtable, and no function has an empty slot map |
| VirtualFunctionMap.InstallersMembers | RttiInformation/ClassHierarchyInference/ClassHierarchyDeduction.py:25-39 | class c is listed for f at k iff some locator of class c holds f at position k |
| VirtualFunctionMap.InstallersCount | RttiInformation/ClassHierarchyInference/ClassHierarchyDeduction.py:25-39 | with each locator visited once, the list for f at k has one entry per locator holding f at k |
| VirtualFunctionMap.InstallersCountOf | RttiInformation/ClassHierarchyInference/ClassHierarchyDeduction.py:25-39 | with each locator visited once, c occurs in the list for f at k as often as there are locators of class c holding f at k |
| VirtualFunctionMap.RepresentsStep | RttiInformation/ClassHierarchyInference/ClassHierarchyDeduction.py:29-39 | each of the three update branches (new function, new slot, known slot) appends the locator's class to exactly the list of that function and slot |
| CommonAncestor.RoundsTaken | RttiInformation/ClassHierarchyInference/ClassHierarchyDeduction.py:45-53 | the loop runs at most the safety limit of rounds, and none for an input of at most one distinct class |
| CommonAncestor.GetLowestCommonAncestor | RttiInformation/ClassHierarchyInference/ClassHierarchyDeduction.py:43-60 | returns a member of the final working set of the bounded contraction, or 0 when that set is empty; runs at most 20 rounds, none (no oracle call) for one distinct class, whose element is then returned |
| CommonAncestor.ContractSound | RttiInformation/ClassHierarchyInference/ClassHierarchyDeduction.py:47-53 | with an oracle that answers only common ancestors, every member of the final set is an ancestor of some input class |
| CommonAncestor.ContractCovers | RttiInformation/ClassHierarchyInference/ClassHierarchyDeduction.py:47-53 | with a sound oracle answering every pair, every input class has an ancestor in the final set |
| CommonAncestor.SingleResultIsCommonAncestor | RttiInformation/ClassHierarchyInference/ClassHierarchyDeduction.py:43-57 | with a sound oracle that answers every pair, a contraction that ends in a single class ends in an ancestor of every input class |
| CommonAncestor.PartialOracleNotCommon | RttiInformation/ClassHierarchyInference/ClassHierarchyDeduction.py:47-57 | with a sound oracle that leaves a pair unanswered, classes 1, 2, 3 contract to the single class 10, which is not an ancestor of 3 |
| CommonAncestor.ContractWithin | RttiInformation/ClassHierarchyInference/ClassHierarchyDeduction.py:47-53 | if the inputs and every oracle answer lie in a set, so does the final working set |
| Attribution.Pad3 | RttiInformation/ClassHierarchyInference/ClassHierarchyDeduction.py:78 | `{index:03}`: all decimal digits, denoting the index, at least three characters and no leading zero beyond three |
| Attribution.ContainsOccurs | RttiInformation/ClassHierarchyInference/ClassHierarchyDeduction.py:67 | the recursive substring test agrees with an independent definition: `t` occurs at some position of `s` |
| Attribution.ContainsInside | RttiInformation/ClassHierarchyInference/ClassHierarchyDeduction.py:67 | Python's substring `in` holds for a string placed inside another |
| Attribution.CanonicalNameParts | RttiInformation/ClassHierarchyInference/ClassHierarchyDeduction.py:78 | the name splits into the class name, `::Method`, and the three-digit-padded decimal numeral of the slot index |
| Attribution.FuncNameNotDefinedByPDB | RttiInformation/ClassHierarchyInference/ClassHierarchyDeduction.py:63-67 | true iff the name starts with `sub_` or `::` occurs nowhere in it |
| Attribution.Overwrites | RttiInformation/ClassHierarchyInference/ClassHierarchyDeduction.py:83 | true iff the name starts with `sub_`, or `::` occurs nowhere in it, or `::Method` occurs in it |
| Attribution.CanonicalNameExample | RttiInformation/ClassHierarchyInference/ClassHierarchyDeduction.py:78 | class "Base" at slot 7 is named "Base::Method007" |
| Attribution.CanonicalNameInjective | RttiInformation/ClassHierarchyInference/ClassHierarchyDeduction.py:78 | two slots of one class never get the same name |
| Attribution.CanonicalOverwrites | RttiInformation/ClassHierarchyInference/ClassHierarchyDeduction.py:83 | a function carrying a canonical name is renamed, not commented |
| Attribution.AutoNameOverwrites | RttiInformation/ClassHierarchyInference/ClassHierarchyDeduction.py:63-67 | a function with the disassembler's `sub_` name passes the no-PDB-name check and is renamed |
| Attribution.RenameOutcome | RttiInformation/ClassHierarchyInference/ClassHierarchyDeduction.py:70-90 | succeeds iff the address is within [start, end] (end included) and a function exists or can be created there; on failure nothing changes; on success the function's name or its start comment is the canonical name; no other address changes |
| Attribution.RenameOrComment | RttiInformation/ClassHierarchyInference/ClassHierarchyDeduction.py:79-87 | a new function, or one whose name starts with `sub_`, lacks `::` or contains `::Method`, gets the canonical name; any other keeps its name and gets the canonical name as the comment at its start |
| Attribution.RenameIdempotent | RttiInformation/ClassHierarchyInference/ClassHierarchyDeduction.py:70-90 | attributing a function again with the same owner and slot returns the same result and changes nothing |
| Attribution.RenameLocal | RttiInformation/ClassHierarchyInference/ClassHierarchyDeduction.py:70-90 | the outcome at an address depends only on the state at that address |
| Attribution.CodeModel.constructor | RttiInformation/ClassHierarchyInference/ClassHierarchyDeduction.py:70 | a code model holds the given layout and state |
| Attribution.CodeModel.RenameFunction | RttiInformation/ClassHierarchyInference/ClassHierarchyDeduction.py:70-90 | the result and the new code state are those of the outcome above, from the old state |
| VtableFunctions.CopySlots | RttiInformation/ClassHierarchyInference/ClassHierarchyDeduction.py:100-107 | the copied `indices` map has the same slot keys and lists as the function's slot map |
| VtableFunctions.FindAmbiguousFunctions | RttiInformation/ClassHierarchyInference/ClassHierarchyDeduction.py:97-115 | a function is in the ambiguous list iff its slot map has more than one key |
| VtableFunctions.AmbiguousIffTwoSlots | RttiInformation/ClassHierarchyInference/ClassHierarchyDeduction.py:109-115 | over the mapper's result, a function is ambiguous iff the vtables install it at two different slot indices |
| VtableFunctions.SoleSlotOfSingle | RttiInformation/ClassHierarchyInference/ClassHierarchyDeduction.py:117-121 | a function whose slot map has the single key k is installed at k and at no other slot |
| VtableFunctions.SingleOfSoleSlot | RttiInformation/ClassHierarchyInference/ClassHierarchyDeduction.py:117-121 | conversely, a function installed at k only has the single slot key k |
| VtableFunctions.SlotIndexNonNegative | RttiInformation/ClassHierarchyInference/ClassHierarchyDeduction.py:27-39 | every slot index a vtable installs a function at is non-negative |
| VtableFunctions.OwnerKnown | RttiInformation/ClassHierarchyInference/ClassHierarchyDeduction.py:121-128 | the chosen owner, when not 0, has a base-class descriptor, so the class-name lookup cannot fail |
| VtableFunctions.AttributeFunction | RttiInformation/ClassHierarchyInference/ClassHierarchyDeduction.py:121-132 | the owner of the function's only slot is its single class, the contracted ancestor of a longer list, or 0; the function is renamed at that slot unless the owner is 0, and the renamer is called exactly when it is not 0; the state at the function is the one attributing it to the returned owner leaves (`OwnedBy`); no other address changes |
| VtableFunctions.DefinevTableFunctions | RttiInformation/ClassHierarchyInference/ClassHierarchyDeduction.py:93-134 | a function installed at exactly one slot is attributed as its owner choice dictates, its state is the one attributing it to its recorded owner `owners[f]` leaves, and it is handed to the renamer exactly when that owner is not 0; every other function (ambiguous, or in no vtable) is never handed to the renamer and is left unchanged |
| VtableFunctions.SettledMeansSoleSlot | RttiInformation/ClassHierarchyInference/ClassHierarchyDeduction.py:117-132 | once every function has been handled, the outcome reads in terms of the vtables: each sole-slot function is attributed to its recorded owner, which is a choice for its class list; all others are unchanged |

## Left out

- `WriteGraphToFile` and its call at line 194: GEXF/GraphML export is file output and has no effect on the result.
- `nx.all_pairs_lowest_common_ancestor` is an oracle parameter. Its exception on graphs that are not DAGs is not modelled. The pairs of `itertools.combinations` are taken as the unordered pairs (u, v) with u < v: the order of a pair and of the pair list is left to the oracle.
- `set.pop()` and iteration over dictionaries are arbitrary choice. The locator order given to the mapper stands for the dictionary's iteration order.
- Logging and printing (`Utils.LogToFile`, `print`, the ambiguity message at lines 110-114) are left out. They do not affect control flow.
- Node attributes (`nx.set_node_attributes`) and the unused `resolved_bcd` list are left out.
- `int(..., 16)` also accepts surrounding whitespace, `_` between digits, and non-ASCII decimal digits such as the fullwidth '１'. `HexNumeral` accepts none of them, so such text counts as malformed in the model.
- Binary Ninja is the abstract `CodeModel`. Not modelled:
  - `update_analysis_and_wait`;
  - how the disassembler names a function it creates (modelled as `sub_` followed by the address in hexadecimal);
  - the catch-all `except`, which becomes the one failure the model knows: creating a function is not possible at that address.
- `DefineClassHierarchy` (lines 199-200) only chains the two entry points. It needs the graph only as an oracle, so it is not modelled separately.
- The model assumes consistent tables. Every table lookup the code makes without a guard is a precondition, so the crash it would cause is not modelled:
  - `Walkable`: every entry after the first of a base-class array walked has a base-class descriptor whose `numContainedBases` is hexadecimal text. Otherwise line 13 raises `KeyError` or `ValueError`, after line 158 has already added the entry's edge.
  - `GraphReady`: every descriptor's `pClassDescriptor` is hexadecimal text naming a hierarchy-descriptor key, and its array is `Walkable`. Otherwise line 146 raises `ValueError` or `KeyError`.
  - `LocatorsReady`: every locator whose vtable holds a function points to a hierarchy descriptor with a non-empty array. Otherwise line 17 raises `KeyError` or `IndexError`. Locators with empty vtables are not constrained, because line 17 never runs for them.
  - `ClassesKnown` and `OracleKnown`: the class of every locator with a function, and every oracle answer, is a base-class-descriptor key. `RenameFunction` requires its owner to be a key. These are stronger than the class-name lookups at line 75 (outside the `try`) and at line 111 need. A function outside [start, end] returns at line 73 before line 75 looks anything up, and the oracle is also constrained on pairs it is never asked. Both are assumed because real MSVC tables meet them: each class of a hierarchy has its own descriptor, and entry 0 of a hierarchy's array is that descriptor.
- The hierarchy graph is not passed to `DefinevTableFunctions` as a graph. Its role there is played by the common-ancestor oracle, so no property ties the oracle to the graph that `CreateHierarchyGraph` builds.
