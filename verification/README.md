# Variant: a verified model of `wtr::Variant<Args...>`

`include/Variant.h` is a closed-alternative tagged union with value semantics.
It is built from three parts:

- a compile-time registry over the variadic type list. `SizeOf` sums the
  alternatives' sizes, `AlignOf` takes their largest alignment, and `IndexOf`
  maps a type to its position or -1;
- a recursive index dispatch, `TypeMatcher`. It copies, moves or destroys the
  k-th alternative of one shared `AlignedStorage` slot;
- the `Variant` class. Its state is the current index, a cached hash and the
  slot. Its operations are `Set`, `Get`, `Is`, `GetIndex`, `GetHash`, copy and
  move (construction, assignment and `Emplace`), `==` and the `std::hash`
  specialisation.

The model follows the code in a release build, where failed `_VARIANT_ASSERT`s
are no-ops.

- `TypeList.dfy` (module `TypeList`). A type is a `TypeTag` carrying its size,
  its alignment and whether `std::hash` exists for it. A type list is a
  `seq<TypeTag>`. `SizeOf`, `AlignOf`, `Found` and `IndexOf` follow the
  template specialisations case by case.
- `Matcher.dfy` (module `Matcher`). `HashMatcher` is here, and so is the slot:
  a `valid` flag, the object its bytes currently hold, and a trace of
  lifecycle steps (construct, assign, destroy). The number of live objects,
  `Live`, is derived from the trace, so destructor obligations can be stated.
  `MatchCopy`, `MatchMove` and `MatchDestroy` walk the list the way
  `TypeMatcher` does.
- `Variants.dfy` (module `Variants`). The `Variant` record and one pure
  transition function per constructor, assignment and member function. It
  also holds three invariants (a well-formed slot, a coherent hash, one live
  object per non-empty variant) and the lemmas about them. `Default`, `Set`
  and `Destroy` keep all three; the copy as written (and so every move,
  assignment and `Emplace` built on it) breaks the live-object count when both
  operands are non-empty, and the copy, move and value constructors can break
  hash coherence through the uninitialised hash.
- `Fixes.dfy` (module `Fixes`). Corrected definitions for the defects listed
  under "## Findings", each with its intended property proved.
- `Optional.dfy`: the `Option` datatype.

Where a conventional tagged union would behave differently, the model follows
the header:

- The slot is sized by the SUM of the alternatives' sizes, not the largest
  one (`SizeOfExceedsMaxSize`).
- `Set` always destroys and then reconstructs, even for the same alternative.
  It never assigns in place.
- With a repeated type, `IndexOf` yields the LAST occurrence, not the first.
- A move copies, because the dispatch constructs from a named rvalue
  reference. The source keeps its value, index and hash.
- Copying never assigns in place. The `valid` flag is never set, so the
  placement-new branch is always taken.

Inputs the model cannot know are parameters:

- `std::hash` of the hashable alternatives is a function `hasher: Value -> Hash`.
- The bits of a `m_nCurrentHash` that a constructor leaves uninitialised are
  `garbage: Hash`.
- Whether the two operands of an assignment, an `Emplace` or `==` are the same
  object is `aliased: bool`. When it is true, their states must coincide.

## Model

| member | source | states |
|---|---|---|
| TypeList.SizeOf | include/Variant.h:51-73 | the empty list gives 0, a single type gives its own size, and the result is at least the size of every alternative |
| TypeList.SizeOfIsSum | include/Variant.h:51-73 | the slot size equals the sum of all the alternatives' sizes, added one by one from the back of the list |
| TypeList.SizeOfConcat | include/Variant.h:63-67 | the size fold is a sum: the size of a concatenated list is the sum of the two parts' sizes |
| TypeList.SizeOfExceedsMaxSize | include/Variant.h:234 | with two or more non-empty alternatives, the slot is strictly larger than the largest alternative, so it sums rather than maximises |
| TypeList.AlignOf | include/Variant.h:75-97 | the empty list gives 0; otherwise the result is at least every alternative's alignment and equals one of them |
| TypeList.AlignOfConcat | include/Variant.h:87-91 | the alignment of a concatenated list is the larger of the two parts' alignments |
| TypeList.Found | include/Variant.h:110-122 | `found` holds exactly when the type occurs in the list |
| TypeList.IndexOf | include/Variant.h:110-128 | the result is -1 exactly when the type is not listed; otherwise it lies in [0, n) and the list holds the type at that position |
| TypeList.IndexOfIsLastOccurrence | include/Variant.h:117-122 | with duplicates, no later position holds the type, so the recursion lands on the last occurrence |
| TypeList.IndexOfDistinct | include/Variant.h:117-128 | in a list without duplicates, the index of the k-th type is k |
| TypeList.FindIndex | include/Variant.h:124-128 | a back-to-front scan finds the same position as the compile-time `IndexOf` |
| Matcher.HashMatcher | include/Variant.h:215-227 | a value of a type with `std::hash` gets that hash; a value of any other type gets 0 |
| Matcher.CopyAlternative | include/Variant.h:179-192 | the destination holds the source's object; with `valid` clear one construction is appended and the live count grows by one, with `valid` set one assignment is appended and the count is unchanged |
| Matcher.MoveAlternative | include/Variant.h:157-170 | the same steps as the copy branch, and the source slot comes back unchanged |
| Matcher.DestroyAlternative | include/Variant.h:201-207 | one destructor of the alternative is appended, `valid` is cleared, the slot holds no object, and the live count drops by one |
| Matcher.NewStorage | include/Variant.h:99-108 | a fresh slot has `valid` false, holds no object and owes no destructor call |
| Matcher.MatchCopy | include/Variant.h:141-197 | the copy dispatch acts on exactly the k-th alternative for k in [0, n); any other k reaches the empty list and changes nothing |
| Matcher.MatchMove | include/Variant.h:136-175 | the move dispatch acts on exactly the k-th alternative for k in [0, n); any other k changes nothing |
| Matcher.MatchDestroy | include/Variant.h:146-212 | the destroy dispatch destroys exactly the k-th alternative for k in [0, n); any other k changes nothing |
| Matcher.MatchMoveIsMatchCopy | include/Variant.h:155-197 | the move dispatch produces the copy dispatch's destination and leaves the source slot unchanged |
| Matcher.CopyOnInvalidSlotConstructs | include/Variant.h:177-192 | on a slot with `valid` clear, the dispatch appends exactly one construction and no assignment or destruction; the live count grows by one |
| Matcher.DestroyReleasesOne | include/Variant.h:199-212 | a dispatched destroy in range runs the k-th destructor once, clears `valid` and lowers the live count by one |
| Variants.Default | include/Variant.h:241-244 | a default-constructed variant has index -1 and hash 0, and its slot holds no object and owes no destructor call |
| Variants.Destruct | include/Variant.h:246-249 | the destructor leaves index -1; on a non-empty variant it appends one destructor of the active alternative and zeroes the hash; on an empty one nothing changes |
| Variants.Destroy | include/Variant.h:412-420 | on a non-empty variant: one destructor of the active alternative runs, and the state resets to index -1 and hash 0; on an empty one: nothing changes |
| Variants.DestructReleasesAll | include/Variant.h:246-249 | the destructor runs the active alternative's destructor once and leaves no live object |
| Variants.Set | include/Variant.h:327-361 | for a listed type, the index becomes `IndexOf`, the hash becomes `HashMatcher`'s, the slot holds the value, and the trace shows the old occupant destroyed before the new value is constructed; for an unlisted type, the state is unchanged |
| Variants.Copy | include/Variant.h:422-430 | from a non-empty source, the destination takes the source's index, hash and object; from an empty source, the destination is unchanged |
| Variants.Move | include/Variant.h:432-440 | the source comes back unchanged; from a non-empty source, the destination takes the source's index, hash and a copy of its object; from an empty source, the destination is unchanged |
| Variants.CopyConstruct | include/Variant.h:251-255 | a copy of an empty variant has index -1 and the uninitialised hash; a copy of a non-empty one takes its index and hash, holds its object and has constructed it once |
| Variants.MoveConstruct | include/Variant.h:257-261 | the source comes back unchanged; the new variant is as for the copy constructor |
| Variants.ValueConstruct | include/Variant.h:263-275 | for a listed type, `Is` holds, `Get` yields the value, the hash is its `HashMatcher` hash and one object has been constructed; for an unlisted type, the index is -1 and the hash is uninitialised |
| Variants.AssignCopy | include/Variant.h:277-285 | self-assignment and assignment from an empty variant change nothing; otherwise the index, hash and object are taken from the source |
| Variants.AssignMove | include/Variant.h:287-295 | as copy assignment, and the source comes back unchanged |
| Variants.AssignValue | include/Variant.h:297-311 | for a listed type, `Is` holds, `Get` yields the value and the hash is its `HashMatcher` hash; for an unlisted type, nothing changes |
| Variants.EmplaceCopy | include/Variant.h:395-401 | `Emplace` of the same object or of an empty variant changes nothing; otherwise the index, hash and object are taken from the source |
| Variants.EmplaceMove | include/Variant.h:403-409 | as the copying `Emplace`, and the source comes back unchanged |
| Variants.Is | include/Variant.h:389-393 | if `Is` holds for a listed type, the index names that type; if it holds for an unlisted type, the variant is empty |
| Variants.Get | include/Variant.h:363-377 | a stored result comes only when `Is` holds, and it is the object the slot holds; when `Is` fails, the result is the placeholder |
| Variants.Equals | include/Variant.h:313-324 | an object never equals itself; equal variants have the same index and the same cached hash |
| Variants.HashOf | include/Variant.h:449-458 | the `std::hash` of a variant is the cached hash of every variant it compares equal to |
| Variants.DefaultIsEmpty | include/Variant.h:241-244 | a default-constructed variant has index -1 and hash 0, meets every invariant, and fails `Is` and yields the placeholder from `Get` for every listed type |
| Variants.DestroyPreserves | include/Variant.h:412-420 | `Destroy` keeps the three invariants and leaves no live object |
| Variants.SetPreserves | include/Variant.h:327-361 | `Set` keeps the slot structure, the hash coherence and the one-live-object count |
| Variants.SetThenGet | include/Variant.h:327-343 | round trip: after `Set(v)` with a listed type, `Is` holds, `Get` yields v, and `GetHash` is v's hash |
| Variants.SetSameAlternativeDestroysFirst | include/Variant.h:331-335 | setting a value of the already active alternative still destroys the occupant and then constructs; it never assigns |
| Variants.SetExcludesOthers | include/Variant.h:327-343 | after `Set` with one listed type, `Is` fails and `Get` yields the placeholder for every other listed type |
| Variants.ValueOperationsAreSet | include/Variant.h:263-275 | a value constructor is `Set` on an empty variant for a listed type, and leaves the hash uninitialised for an unlisted one; value assignment is `Set` |
| Variants.IsIff | include/Variant.h:389-393 | in a well-formed state, `Is` holds exactly when an object of that type is stored, or when the variant is empty and the type is not listed |
| Variants.GetIff | include/Variant.h:363-377 | in a well-formed state, `Get` yields a stored object exactly when `Is` holds for a listed type; the object has that type; every other listed type gets the placeholder |
| Variants.MoveIsCopy | include/Variant.h:432-440 | `Move` produces exactly `Copy`'s destination and leaves the source as it was |
| Variants.CopyFamilyAgrees | include/Variant.h:277-295 | copy and move construction, copy and move assignment, and both `Emplace`s produce the same destination and leave the source alone; self-assignment is a no-op |
| Variants.CopyDropsOccupant | include/Variant.h:422-430 | copying a non-empty source always takes the placement-new branch: index, hash and object are copied, one construction is appended, and the previous occupant is never destroyed |
| Variants.CopyPreserves | include/Variant.h:422-430 | copy keeps the slot structure and hash coherence; the live count is right exactly when the source or the destination was empty, and it is 2 when both were non-empty |
| Variants.SelfComparisonIsFalse | include/Variant.h:313-324 | comparing an object with itself yields false |
| Variants.EqualsIff | include/Variant.h:313-324 | two distinct objects are equal exactly when their indices and cached hashes agree; any two coherent empty variants are equal |
| Variants.HashAgreesWithEquals | include/Variant.h:449-458 | variants that compare equal have the same `std::hash` |
| Variants.SetEqualIffSameHash | include/Variant.h:215-227 | two variants set to values of the same listed alternative are equal exactly when the values' hashes agree; for an alternative without `std::hash`, they are always equal |
| Variants.ScenarioPrimitives | test/main.cpp:16-28 | `(int, float, double)`: `Set(1.0f)` gives index 1 and stores the float; `Set(2.0)` gives index 2, stores the double, and has destroyed the float once |
| Variants.ScenarioCopy | test/main.cpp:31-42 | `(int, float, double)`: after `Set(100)`, a copy-constructed variant has index 0, the same hash, and reads back the same `int` |
| Variants.ScenarioObjectLifecycle | test/main.cpp:44-66 | `(int, Object)`: setting an `Object` and then an `int` destroys the `Object` exactly once before the `int` is constructed, and leaves one live object |
| Fixes.CopyOfEmptyKeepsGarbage | include/Variant.h:251-255 | a copy-constructed empty variant keeps a non-zero uninitialised hash and does not equal a default-constructed one |
| Fixes.CopyConstructFixed | include/Variant.h:241-255 | with the hash initialised to 0, a copy of an empty variant is a default-constructed variant, and a copy of a non-empty one takes its index, hash and object |
| Fixes.ValueConstructFixed | include/Variant.h:263-275 | with the hash initialised to 0, an unlisted type leaves a default-constructed variant, and a listed one reads back through `Get` |
| Fixes.FixedConstructorsCoherent | include/Variant.h:251-275 | the corrected constructors keep the three invariants, and a copy equals its (distinct) source |
| Fixes.CopyLeaksOccupant | include/Variant.h:184-187 | copying an `int` variant onto an `Object` variant leaves two live objects, and `~Object` is never run |
| Fixes.CopyFixed | include/Variant.h:422-430 | the corrected copy assigns in place for the same alternative, and otherwise destroys the occupant before constructing |
| Fixes.CopyFixedPreserves | include/Variant.h:422-430 | the corrected copy keeps every invariant, including exactly one live object when non-empty |
| Fixes.EqualsFixed | include/Variant.h:313-324 | the corrected equality holds for equal states and implies equal `std::hash` |
| Fixes.EqualsFixedIsEquivalence | include/Variant.h:313-324 | the corrected equality is reflexive, symmetric and transitive, and it agrees with `==` on distinct objects |
| Fixes.IsUnlistedOnEmpty | include/Variant.h:389-393 | on an empty `Variant<int, float, double>`, `Is<bool>` holds and `Get<bool>` reads the empty slot |
| Fixes.IsFixed | include/Variant.h:389-393 | the corrected `Is` implies the type is listed, and it never holds on an empty variant |
| Fixes.GetFixed | include/Variant.h:363-377 | the corrected `Get` yields a stored object only for a listed type, and that object is the slot's; on an empty variant it yields the placeholder |
| Fixes.IsFixedIff | include/Variant.h:363-393 | in a well-formed state, the corrected `Is` holds exactly when an object of that type is stored; the corrected `Get` then returns it, returns the placeholder otherwise, and never reads an empty slot |

## Findings

| source | as written | input that shows it | evidently intended | confidence | as-written member | corrected member |
|---|---|---|---|---|---|---|
| include/Variant.h:251-275 | the copy, move and value constructors initialise the index to -1 but not `m_nCurrentHash` | copy-construct from a default `Variant<int>`: the index is -1 and the hash is whatever was in memory, so the copy need not equal a default variant | the hash starts at 0, as in `Variant()` | high, not executed | Fixes.CopyOfEmptyKeepsGarbage | Fixes.CopyConstructFixed |
| include/Variant.h:162-190 | `valid` is never set to true, so `Copy`/`Move` always placement-construct over the destination's object | `Variant<int, Object>` b holding an `Object`; `b = a` with a holding an `int`: `~Object` never runs | the destination's occupant is destroyed, or assigned when it is the same alternative | high, not executed | Fixes.CopyLeaksOccupant | Fixes.CopyFixed |
| include/Variant.h:313-324 | `operator==` returns false when both operands are the same object | `v == v` for any `v` | equality is reflexive | medium, not executed | Variants.SelfComparisonIsFalse | Fixes.EqualsFixed |
| include/Variant.h:363-393 | `Is<U>`/`Get<U>` compare `IndexOf<U>` with the index even when U is not listed | empty `Variant<int, float, double>`: `Is<bool>()` is true, and `Get<bool>()` reads the raw slot | a type that is not listed is never active | medium, not executed | Fixes.IsUnlistedOnEmpty | Fixes.IsFixed |

## Left out

- Raw memory is not modelled: `alignas`, the byte array, `reinterpret_cast` and placement `new`. The slot is an optional object plus the `valid` flag and a lifecycle trace. `SizeOf`/`AlignOf` give its size and alignment, but nothing checks the bytes against them.
- TypeList.SizeOf: does not model `size_t` wrap-around of the summed sizes. Sizes are unbounded naturals, because a real type list cannot approach 2^64 bytes.
- `m_nCurrentIndex` is an unbounded `int` rather than a 32-bit `int`. An index always lies in [-1, n), and no list has 2^31 types.
- Concrete `std::hash` values are not modelled. They are the parameter `hasher`.
- The rvalue `Set` hashes its argument after moving from it. The model hashes the value as passed.
- C++ overload resolution is not modelled: the `EnableIf` guards, forwarding-reference deduction, `Declval`, and `virtual` on the destructor. The two `Set` overloads, the two value constructors and the two value assignments are each one function.
- Variants.Set: does not model a constructor of the alternative that throws. `Destroy` and the index update run before placement `new` (include/Variant.h:333-335 and 351-353), so a throw would leave the index naming an object that was never built. The model treats every construction as succeeding.
- Variants.Set: does not model an argument that refers to the variant's own stored object, as in `v.Set(v.Get<T>())`, where `Destroy` runs before the copy reads the argument. Values are independent inputs, so `SetThenGet` holds only for arguments that do not alias the slot.
- Variants.Copy: does not model a copy constructor that throws. The index and hash are written (include/Variant.h:426-427) before the dispatch constructs the object (line 428), so a throw would leave them naming an unbuilt object. The same holds for `Move` at lines 436-438.
- `_DEBUG` assertions are not modelled. Each failed check is a no-op, as in a release build.
- `Get`'s function-local `static T emptyValue` is not modelled. It is the `Placeholder` result, and its contents are not tracked.
- Deep versus shared copying of an alternative's contents is not modelled. Objects are immutable values, and a copy is the same value.
- `GetIndex` and `GetHash` are plain accessors. Their results are stated through `DefaultIsEmpty`, `SetThenGet` and `EqualsIff`.
- The test program's logging, `system("pause")` and the `std::vector` alternatives are not modelled. The vector alternatives behave like any other alternative here.
