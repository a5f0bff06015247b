/** `wtr::Variant<Args...>` as the code is written, in a release build: an
    immutable record of `m_nCurrentIndex`, `m_nCurrentHash` and the slot, with
    one pure transition function per constructor, assignment and member
    function. `ts` is the alternative list `Args...` throughout. */
module Variants {
  import opened Optional
  import opened TypeList
  import opened Matcher

  /** The state of one `Variant` object. */
  datatype Variant = Variant(index: int, hash: Hash, slot: Storage)

  /** What `Get<T>()` hands back: the slot's object read as a `T`, the
      function-local placeholder `emptyValue`, or the slot's bytes read while
      no object lives there. */
  datatype Read = Stored(value: Value) | Placeholder | Indeterminate

  /** `Variant()`: index -1, hash 0, a fresh slot that owes no destructor
      call. */
  function Default(): (r: Variant)
    ensures GetIndex(r) == -1 && GetHash(r) == 0
    ensures !r.slot.valid && r.slot.content == None && Live(r.slot.trace) == 0
  {
    Variant(-1, 0, NewStorage())
  }

  /** The state every other constructor starts from: index -1, a fresh slot,
      and `m_nCurrentHash` never initialised, so it holds whatever bits
      `garbage` stands for. */
  function Unset(garbage: Hash): Variant {
    Variant(-1, garbage, NewStorage())
  }

  function GetIndex(v: Variant): int {
    v.index
  }

  function GetHash(v: Variant): Hash {
    v.hash
  }

  /** The private `Destroy()`: when an alternative is active, run its
      destructor through the dispatch and reset to index -1 and hash 0;
      when empty, change nothing. */
  function Destroy(ts: seq<TypeTag>, v: Variant): (r: Variant)
    ensures v.index == -1 ==> r == v
    ensures v.index != -1 ==> r.index == -1 && r.hash == 0
    ensures 0 <= v.index < |ts| ==>
      && r.slot.trace == v.slot.trace + [Destroyed(ts[v.index])]
      && Live(r.slot.trace) == Live(v.slot.trace) - 1
      && !r.slot.valid && r.slot.content == None
  {
    if v.index == -1 then v
    else if 0 <= v.index < |ts| then
      DestroyReleasesOne(ts, v.slot, v.index);
      v.(index := -1, hash := 0, slot := MatchDestroy(ts, v.slot, v.index))
    else
      v.(index := -1, hash := 0, slot := MatchDestroy(ts, v.slot, v.index))
  }

  /** `~Variant()`: calls `Destroy()`. */
  function Destruct(ts: seq<TypeTag>, v: Variant): (r: Variant)
    ensures v.index == -1 ==> r == v
    ensures GetIndex(r) == -1
    ensures 0 <= v.index < |ts| ==>
      r.slot.trace == v.slot.trace + [Destroyed(ts[v.index])] && GetHash(r) == 0
  {
    Destroy(ts, v)
  }

  /** `Set<T>(value)`, both overloads: for a listed `T`, destroy the current
      occupant (whatever it is, the same alternative included), then record
      the index, placement-construct the value and cache its hash. For an
      unlisted `T`, nothing happens. */
  function Set(ts: seq<TypeTag>, hasher: StdHash, v: Variant, x: Value): (r: Variant)
    ensures x.tag !in ts ==> r == v
    ensures x.tag in ts ==>
      && r.index == IndexOf(x.tag, ts)
      && r.hash == HashMatcher(hasher, x)
      && r.slot.content == Some(x)
    ensures x.tag in ts && v.index == -1 ==>
      r.slot.trace == v.slot.trace + [Constructed(x.tag)]
    ensures x.tag in ts && 0 <= v.index < |ts| ==>
      r.slot.trace == v.slot.trace + [Destroyed(ts[v.index]), Constructed(x.tag)]
  {
    var index := IndexOf(x.tag, ts);
    if index != -1 then
      var d := Destroy(ts, v);
      assert 0 <= v.index < |ts| ==>
        d.slot.trace + [Constructed(x.tag)] == v.slot.trace + [Destroyed(ts[v.index]), Constructed(x.tag)];
      d.(index := index,
         slot := d.slot.(content := Some(x), trace := d.slot.trace + [Constructed(x.tag)]),
         hash := HashMatcher(hasher, x))
    else v
  }

  /** `Is<T>()`: whether `IndexOf<T>` equals the current index. */
  function Is(ts: seq<TypeTag>, v: Variant, t: TypeTag): (r: bool)
    ensures r && t in ts ==> 0 <= v.index < |ts| && ts[v.index] == t
    ensures r && t !in ts ==> v.index == -1
  {
    IndexOf(t, ts) == v.index
  }

  /** `Get<T>()`: the slot's object when `Is<T>()` holds, otherwise the
      placeholder. */
  function Get(ts: seq<TypeTag>, v: Variant, t: TypeTag): (r: Read)
    ensures r.Stored? ==> Is(ts, v, t) && v.slot.content == Some(r.value)
    ensures !Is(ts, v, t) ==> r == Placeholder
  {
    if IndexOf(t, ts) == v.index then
      match v.slot.content
      case Some(x) => Stored(x)
      case None => Indeterminate
    else Placeholder
  }

  /** The private `Copy(other)`: with a non-empty source, take its index and
      hash and dispatch a copy of its object; with an empty source, leave the
      destination exactly as it was. */
  function Copy(ts: seq<TypeTag>, dst: Variant, src: Variant): (r: Variant)
    ensures src.index == -1 ==> r == dst
    ensures src.index != -1 ==> r.index == src.index && r.hash == src.hash
    ensures 0 <= src.index < |ts| ==> r.slot.content == src.slot.content
  {
    if src.index != -1 then
      var d := dst.(index := src.index, hash := src.hash);
      d.(slot := MatchCopy(ts, d.slot, src.slot, d.index))
    else dst
  }

  /** The private `Move(other)`, returning the destination and the source
      after the call: the same steps as `Copy`, through the move dispatch. */
  function Move(ts: seq<TypeTag>, dst: Variant, src: Variant): (r: (Variant, Variant))
    ensures r.1 == src
    ensures src.index == -1 ==> r.0 == dst
    ensures src.index != -1 ==> r.0.index == src.index && r.0.hash == src.hash
    ensures 0 <= src.index < |ts| ==> r.0.slot.content == src.slot.content
  {
    if src.index != -1 then
      var d := dst.(index := src.index, hash := src.hash);
      var (lhs, rhs) := MatchMove(ts, d.slot, src.slot, d.index);
      (d.(slot := lhs), src.(slot := rhs))
    else (dst, src)
  }

  /** `Variant(const Variant&)`: index -1, hash uninitialised, then `Copy`. */
  function CopyConstruct(ts: seq<TypeTag>, src: Variant, garbage: Hash): (r: Variant)
    ensures src.index == -1 ==> GetIndex(r) == -1 && GetHash(r) == garbage
    ensures src.index != -1 ==> GetIndex(r) == src.index && GetHash(r) == src.hash
    ensures 0 <= src.index < |ts| ==>
      r.slot.content == src.slot.content && r.slot.trace == [Constructed(ts[src.index])]
  {
    Copy(ts, Unset(garbage), src)
  }

  /** `Variant(Variant&&)`: index -1, hash uninitialised, then `Move`. */
  function MoveConstruct(ts: seq<TypeTag>, src: Variant, garbage: Hash): (r: (Variant, Variant))
    ensures r.1 == src
    ensures src.index == -1 ==> GetIndex(r.0) == -1 && GetHash(r.0) == garbage
    ensures src.index != -1 ==> GetIndex(r.0) == src.index && GetHash(r.0) == src.hash
    ensures 0 <= src.index < |ts| ==> r.0.slot.content == src.slot.content
  {
    Move(ts, Unset(garbage), src)
  }

  /** `Variant(const T&)` and `Variant(T&&)`: index -1, hash uninitialised,
      then `Set`. */
  function ValueConstruct(ts: seq<TypeTag>, hasher: StdHash, x: Value, garbage: Hash): (r: Variant)
    ensures x.tag in ts ==>
      && Is(ts, r, x.tag) && Get(ts, r, x.tag) == Stored(x) && GetHash(r) == HashMatcher(hasher, x)
      && r.slot.trace == [Constructed(x.tag)]
    ensures x.tag !in ts ==> GetIndex(r) == -1 && GetHash(r) == garbage
  {
    Set(ts, hasher, Unset(garbage), x)
  }

  /** `operator=(const Variant&)`: `Copy` unless both operands are the same
      object (`aliased`, in which case their states coincide). */
  function AssignCopy(ts: seq<TypeTag>, dst: Variant, src: Variant, aliased: bool): (r: Variant)
    requires aliased ==> dst == src
    ensures aliased || src.index == -1 ==> r == dst
    ensures !aliased && src.index != -1 ==> GetIndex(r) == src.index && GetHash(r) == src.hash
    ensures !aliased && 0 <= src.index < |ts| ==> r.slot.content == src.slot.content
  {
    if !aliased then Copy(ts, dst, src) else dst
  }

  /** `operator=(Variant&&)`: `Move` unless both operands are the same object. */
  function AssignMove(ts: seq<TypeTag>, dst: Variant, src: Variant, aliased: bool): (r: (Variant, Variant))
    requires aliased ==> dst == src
    ensures r.1 == src
    ensures aliased || src.index == -1 ==> r.0 == dst
    ensures !aliased && src.index != -1 ==> GetIndex(r.0) == src.index && GetHash(r.0) == src.hash
    ensures !aliased && 0 <= src.index < |ts| ==> r.0.slot.content == src.slot.content
  {
    if !aliased then Move(ts, dst, src) else (dst, src)
  }

  /** `Emplace(const Variant&)`: `Copy` unless both are the same object. */
  function EmplaceCopy(ts: seq<TypeTag>, dst: Variant, src: Variant, aliased: bool): (r: Variant)
    requires aliased ==> dst == src
    ensures aliased || src.index == -1 ==> r == dst
    ensures !aliased && src.index != -1 ==> GetIndex(r) == src.index && GetHash(r) == src.hash
    ensures !aliased && 0 <= src.index < |ts| ==> r.slot.content == src.slot.content
  {
    if !aliased then Copy(ts, dst, src) else dst
  }

  /** `Emplace(Variant&&)`: `Move` unless both are the same object. */
  function EmplaceMove(ts: seq<TypeTag>, dst: Variant, src: Variant, aliased: bool): (r: (Variant, Variant))
    requires aliased ==> dst == src
    ensures r.1 == src
    ensures aliased || src.index == -1 ==> r.0 == dst
    ensures !aliased && src.index != -1 ==> GetIndex(r.0) == src.index && GetHash(r.0) == src.hash
    ensures !aliased && 0 <= src.index < |ts| ==> r.0.slot.content == src.slot.content
  {
    if !aliased then Move(ts, dst, src) else (dst, src)
  }

  /** `operator=(const T&)` and `operator=(T&&)`: `Set`. */
  function AssignValue(ts: seq<TypeTag>, hasher: StdHash, dst: Variant, x: Value): (r: Variant)
    ensures x.tag in ts ==>
      Is(ts, r, x.tag) && Get(ts, r, x.tag) == Stored(x) && GetHash(r) == HashMatcher(hasher, x)
    ensures x.tag !in ts ==> r == dst
  {
    Set(ts, hasher, dst, x)
  }

  /** `operator==`: false when both operands are the same object; otherwise
      equal indices and equal cached hashes. */
  function Equals(a: Variant, b: Variant, aliased: bool): (r: bool)
    requires aliased ==> a == b
    ensures aliased ==> !r
    ensures r ==> GetIndex(a) == GetIndex(b) && GetHash(a) == GetHash(b)
  {
    if !aliased then
      if a.index == b.index then a.hash == b.hash else false
    else false
  }

  /** `std::hash<wtr::Variant<Args...>>`: the cached hash. */
  function HashOf(v: Variant): (r: Hash)
    ensures forall w :: Equals(v, w, false) ==> r == GetHash(w)
  {
    v.hash
  }

  // ---------------------------------------------------------------------
  // Invariants. `Default`, `Set` and `Destroy` keep all three; the as-written
  // `Copy` (and so `Move`, the assignments and `Emplace`) breaks `NoLeak`
  // when both operands are non-empty, and the copy, move and value
  // constructors can break `HashCoherent` through the uninitialised hash.

  /** Slot structure: `valid` stays clear; the index is -1 or in range; an
      object lives in the slot exactly when the index is not -1, and it is an
      object of the indexed alternative, at the position `IndexOf` gives. */
  predicate Wf(ts: seq<TypeTag>, v: Variant) {
    && !v.slot.valid
    && (v.index == -1 || 0 <= v.index < |ts|)
    && (v.index == -1 <==> v.slot.content == None)
    && (v.index != -1 ==>
          && v.slot.content.Some?
          && v.slot.content.value.tag == ts[v.index]
          && IndexOf(ts[v.index], ts) == v.index)
  }

  /** The cached hash is 0 when empty and the hash of the stored object
      otherwise. */
  predicate HashCoherent(hasher: StdHash, v: Variant) {
    && (v.index == -1 ==> v.hash == 0)
    && (v.slot.content.Some? ==> v.hash == HashMatcher(hasher, v.slot.content.value))
  }

  /** Destructor obligations: exactly one object owes a destructor call when
      non-empty, none when empty. */
  predicate NoLeak(v: Variant) {
    Live(v.slot.trace) == if v.index == -1 then 0 else 1
  }

  predicate Coherent(ts: seq<TypeTag>, hasher: StdHash, v: Variant) {
    Wf(ts, v) && HashCoherent(hasher, v) && NoLeak(v)
  }

  // ---------------------------------------------------------------------
  // Construction, destruction and `Set`.

  /** A default-constructed variant is empty with hash 0, satisfies every
      invariant, reports no alternative and yields the placeholder for every
      listed type. */
  lemma DefaultIsEmpty(ts: seq<TypeTag>, hasher: StdHash)
    ensures GetIndex(Default()) == -1 && GetHash(Default()) == 0
    ensures Coherent(ts, hasher, Default())
    ensures forall t :: t in ts ==> !Is(ts, Default(), t) && Get(ts, Default(), t) == Placeholder
  {
  }

  /** `Destroy` keeps a coherent state coherent and leaves nothing that
      owes a destructor call. */
  lemma DestroyPreserves(ts: seq<TypeTag>, hasher: StdHash, v: Variant)
    requires Coherent(ts, hasher, v)
    ensures Coherent(ts, hasher, Destroy(ts, v))
    ensures Live(Destroy(ts, v).slot.trace) == 0
  {
  }

  /** The destructor of a coherent variant runs the active alternative's
      destructor once and leaves nothing owing a destructor call. */
  lemma DestructReleasesAll(ts: seq<TypeTag>, hasher: StdHash, v: Variant)
    requires Coherent(ts, hasher, v)
    ensures Live(Destruct(ts, v).slot.trace) == 0
    ensures v.index != -1 ==> Destruct(ts, v).slot.trace == v.slot.trace + [Destroyed(ts[v.index])]
    ensures v.index == -1 ==> Destruct(ts, v) == v
  {
    DestroyPreserves(ts, hasher, v);
  }

  /** `Set` keeps a coherent state coherent. */
  lemma SetPreserves(ts: seq<TypeTag>, hasher: StdHash, v: Variant, x: Value)
    requires Coherent(ts, hasher, v)
    ensures Coherent(ts, hasher, Set(ts, hasher, v, x))
  {
    var r := Set(ts, hasher, v, x);
    if x.tag in ts {
      if v.index == -1 {
        LiveAppend(v.slot.trace, Constructed(x.tag));
      } else {
        var d := Destroy(ts, v);
        assert r.slot.trace == d.slot.trace + [Constructed(x.tag)];
        LiveAppend(d.slot.trace, Constructed(x.tag));
      }
      IndexOfIsLastOccurrence(x.tag, ts);
    }
  }

  /** Round trip: after `Set` with a listed type, `Is` holds for that type,
      `Get` yields the value that was set, and the hash is its hash. */
  lemma SetThenGet(ts: seq<TypeTag>, hasher: StdHash, v: Variant, x: Value)
    requires x.tag in ts
    ensures Is(ts, Set(ts, hasher, v, x), x.tag)
    ensures Get(ts, Set(ts, hasher, v, x), x.tag) == Stored(x)
    ensures GetHash(Set(ts, hasher, v, x)) == HashMatcher(hasher, x)
  {
  }

  /** `Set` destroys the current occupant even when it is of the same
      alternative as the new value: the trace shows a destruction followed by
      a construction, never an assignment. */
  lemma SetSameAlternativeDestroysFirst(ts: seq<TypeTag>, hasher: StdHash, v: Variant, x: Value)
    requires Wf(ts, v)
    requires v.index != -1 && ts[v.index] == x.tag
    ensures Set(ts, hasher, v, x).slot.trace == v.slot.trace + [Destroyed(x.tag), Constructed(x.tag)]
    ensures Set(ts, hasher, v, x).index == v.index
  {
  }

  /** Mutual exclusion: once a value of another listed alternative is set,
      `Is` no longer holds for the first alternative and `Get` of it yields
      the placeholder. */
  lemma SetExcludesOthers(ts: seq<TypeTag>, hasher: StdHash, v: Variant, x: Value, t: TypeTag)
    requires x.tag in ts && t in ts && t != x.tag
    ensures !Is(ts, Set(ts, hasher, v, x), t)
    ensures Get(ts, Set(ts, hasher, v, x), t) == Placeholder
  {
  }

  /** A value constructor behaves like `Set` on an empty variant: for a
      listed type the state is as if default-constructed and then set, while
      an unlisted type leaves the uninitialised hash in place. Assigning a
      value is `Set` on the destination. */
  lemma ValueOperationsAreSet(ts: seq<TypeTag>, hasher: StdHash, v: Variant, x: Value, garbage: Hash)
    ensures x.tag in ts ==> ValueConstruct(ts, hasher, x, garbage) == Set(ts, hasher, Default(), x)
    ensures x.tag !in ts ==> ValueConstruct(ts, hasher, x, garbage) == Unset(garbage)
    ensures AssignValue(ts, hasher, v, x) == Set(ts, hasher, v, x)
  {
  }

  // ---------------------------------------------------------------------
  // `Is` and `Get`.

  /** In a well-formed state `Is<T>` holds exactly when an object of type
      `T` is stored, or when the variant is empty and `T` is not listed at
      all (then `IndexOf<T>` is -1 as well). */
  lemma IsIff(ts: seq<TypeTag>, v: Variant, t: TypeTag)
    requires Wf(ts, v)
    ensures Is(ts, v, t) <==>
      (v.slot.content.Some? && v.slot.content.value.tag == t) || (v.index == -1 && t !in ts)
  {
    if v.slot.content.Some? && v.slot.content.value.tag == t {
      assert IndexOf(t, ts) == v.index;
    }
  }

  /** In a well-formed state `Get<T>` yields a stored object only when `Is<T>`
      holds and `T` is listed, and that object has type `T`; every other
      listed `T` gets the placeholder. */
  lemma GetIff(ts: seq<TypeTag>, v: Variant, t: TypeTag)
    requires Wf(ts, v)
    ensures Get(ts, v, t).Stored? <==> Is(ts, v, t) && t in ts
    ensures Get(ts, v, t).Stored? ==> Get(ts, v, t).value.tag == t
    ensures t in ts && !Is(ts, v, t) ==> Get(ts, v, t) == Placeholder
  {
  }

  // ---------------------------------------------------------------------
  // Copy, move, assignment and `Emplace`.

  /** `Move` takes the same steps as `Copy` and leaves the source as it was. */
  lemma MoveIsCopy(ts: seq<TypeTag>, dst: Variant, src: Variant)
    ensures Move(ts, dst, src) == (Copy(ts, dst, src), src)
  {
    if src.index != -1 {
      var d := dst.(index := src.index, hash := src.hash);
      MatchMoveIsMatchCopy(ts, d.slot, src.slot, d.index);
    }
  }

  /** Copy and move construction, copy and move assignment, and both
      `Emplace` overloads produce the same destination, and none of them
      changes the source. Self-assignment changes nothing. */
  lemma CopyFamilyAgrees(ts: seq<TypeTag>, dst: Variant, src: Variant, aliased: bool, garbage: Hash)
    requires aliased ==> dst == src
    ensures AssignMove(ts, dst, src, aliased) == (AssignCopy(ts, dst, src, aliased), src)
    ensures EmplaceCopy(ts, dst, src, aliased) == AssignCopy(ts, dst, src, aliased)
    ensures EmplaceMove(ts, dst, src, aliased) == AssignMove(ts, dst, src, aliased)
    ensures MoveConstruct(ts, src, garbage) == (CopyConstruct(ts, src, garbage), src)
    ensures aliased ==> AssignCopy(ts, dst, src, aliased) == dst
    ensures !aliased ==> AssignCopy(ts, dst, src, aliased) == Copy(ts, dst, src)
  {
    MoveIsCopy(ts, dst, src);
    MoveIsCopy(ts, Unset(garbage), src);
  }

  /** Copying from a well-formed non-empty source into a well-formed
      destination always takes the placement-new branch, because `valid` is
      never set: the destination gets the source's index, hash and object,
      the trace gains one construction and nothing else, so the previous
      occupant's destructor is never run. */
  lemma CopyDropsOccupant(ts: seq<TypeTag>, dst: Variant, src: Variant)
    requires Wf(ts, dst) && Wf(ts, src)
    requires src.index != -1
    ensures Copy(ts, dst, src).index == src.index && Copy(ts, dst, src).hash == src.hash
    ensures Copy(ts, dst, src).slot.content == src.slot.content
    ensures Copy(ts, dst, src).slot.trace == dst.slot.trace + [Constructed(ts[src.index])]
    ensures Live(Copy(ts, dst, src).slot.trace) == Live(dst.slot.trace) + 1
  {
    var d := dst.(index := src.index, hash := src.hash);
    CopyOnInvalidSlotConstructs(ts, d.slot, src.slot, d.index);
  }

  /** `Copy` keeps the slot structure and hash coherence of well-formed
      operands, and owes no more than it should exactly when the destination
      was empty. */
  lemma CopyPreserves(ts: seq<TypeTag>, hasher: StdHash, dst: Variant, src: Variant)
    requires Coherent(ts, hasher, dst) && Coherent(ts, hasher, src)
    ensures Wf(ts, Copy(ts, dst, src)) && HashCoherent(hasher, Copy(ts, dst, src))
    ensures src.index == -1 || dst.index == -1 ==> NoLeak(Copy(ts, dst, src))
    ensures src.index != -1 && dst.index != -1 ==> Live(Copy(ts, dst, src).slot.trace) == 2
  {
    if src.index != -1 {
      CopyDropsOccupant(ts, dst, src);
    }
  }

  // ---------------------------------------------------------------------
  // Equality and hashing.

  /** Comparing an object with itself yields false. */
  lemma SelfComparisonIsFalse(v: Variant)
    ensures !Equals(v, v, true)
  {
  }

  /** Two distinct objects compare equal exactly when their indices and
      cached hashes agree; in particular any two coherent empty variants
      compare equal. */
  lemma EqualsIff(hasher: StdHash, a: Variant, b: Variant)
    ensures Equals(a, b, false) <==> GetIndex(a) == GetIndex(b) && GetHash(a) == GetHash(b)
    ensures HashCoherent(hasher, a) && HashCoherent(hasher, b) && a.index == -1 && b.index == -1 ==>
      Equals(a, b, false)
  {
  }

  /** Equal variants have equal `std::hash`, as a hash-based container needs. */
  lemma HashAgreesWithEquals(a: Variant, b: Variant, aliased: bool)
    requires aliased ==> a == b
    requires Equals(a, b, aliased)
    ensures HashOf(a) == HashOf(b)
  {
  }

  /** Two distinct variants set to values of the same listed alternative
      compare equal exactly when the values' hashes agree, whatever the
      values themselves are; for an alternative without `std::hash` they
      always compare equal. */
  lemma SetEqualIffSameHash(ts: seq<TypeTag>, hasher: StdHash, a: Variant, b: Variant, x: Value, y: Value)
    requires x.tag in ts && y.tag == x.tag
    ensures Equals(Set(ts, hasher, a, x), Set(ts, hasher, b, y), false) <==>
      HashMatcher(hasher, x) == HashMatcher(hasher, y)
    ensures !x.tag.hashable ==> Equals(Set(ts, hasher, a, x), Set(ts, hasher, b, y), false)
  {
  }

  // ---------------------------------------------------------------------
  // Scenarios of the smoke test.

  const IntT := TypeTag("int", 4, 4, true)
  const FloatT := TypeTag("float", 4, 4, true)
  const DoubleT := TypeTag("double", 8, 8, true)
  const ObjectT := TypeTag("Object", 1, 1, false)

  /** `Variant<int, float, double>`: `Set(1.0f)` gives index 1 and stores
      the float; `Set(2.0)` then gives index 2, stores the double and has
      destroyed the float once. */
  lemma ScenarioPrimitives(hasher: StdHash, f: seq<int>, d: seq<int>)
    ensures var ts := [IntT, FloatT, DoubleT];
      var v1 := Set(ts, hasher, Default(), Value(FloatT, f));
      var v2 := Set(ts, hasher, v1, Value(DoubleT, d));
      && GetIndex(v1) == 1 && Is(ts, v1, FloatT) && Get(ts, v1, FloatT) == Stored(Value(FloatT, f))
      && GetIndex(v2) == 2 && Is(ts, v2, DoubleT) && Get(ts, v2, DoubleT) == Stored(Value(DoubleT, d))
      && !Is(ts, v2, FloatT)
      && v2.slot.trace == [Constructed(FloatT), Destroyed(FloatT), Constructed(DoubleT)]
  {
    var ts := [IntT, FloatT, DoubleT];
    assert IndexOf(FloatT, ts) == 1;
    assert IndexOf(DoubleT, ts) == 2;
  }

  /** `Variant<int, float, double>`: after `Set(100)`, a copy-constructed
      variant holds the int and reads it back. */
  lemma ScenarioCopy(hasher: StdHash, n: seq<int>, garbage: Hash)
    ensures var ts := [IntT, FloatT, DoubleT];
      var v := Set(ts, hasher, Default(), Value(IntT, n));
      var c := CopyConstruct(ts, v, garbage);
      && Is(ts, c, IntT) && Get(ts, c, IntT) == Stored(Value(IntT, n))
      && GetIndex(c) == 0 && GetHash(c) == GetHash(v)
  {
    var ts := [IntT, FloatT, DoubleT];
    assert IndexOf(IntT, ts) == 0;
  }

  /** `Variant<int, Object>`: setting an `Object` and then an `int` runs the
      `Object` destructor exactly once before the `int` is stored, and leaves
      exactly one live object in the slot. */
  lemma ScenarioObjectLifecycle(hasher: StdHash, o: seq<int>, n: seq<int>)
    ensures var ts := [IntT, ObjectT];
      var v1 := Set(ts, hasher, Default(), Value(ObjectT, o));
      var v2 := Set(ts, hasher, v1, Value(IntT, n));
      && Is(ts, v1, ObjectT) && GetHash(v1) == 0
      && Is(ts, v2, IntT) && !Is(ts, v2, ObjectT)
      && v2.slot.trace == [Constructed(ObjectT), Destroyed(ObjectT), Constructed(IntT)]
      && Live(v2.slot.trace) == 1
  {
    var ts := [IntT, ObjectT];
    assert IndexOf(ObjectT, ts) == 1;
    assert IndexOf(IntT, ts) == 0;
    var v2 := Set(ts, hasher, Set(ts, hasher, Default(), Value(ObjectT, o)), Value(IntT, n));
    LiveAppend([Constructed(ObjectT)], Destroyed(ObjectT));
    LiveAppend([Constructed(ObjectT), Destroyed(ObjectT)], Constructed(IntT));
    assert [Constructed(ObjectT)] == [] + [Constructed(ObjectT)];
    LiveAppend([], Constructed(ObjectT));
  }
}
