/** Corrected definitions for four places where `Variant` as written departs
    from what its own default constructor, its `Destroy` bookkeeping and the
    usual equality contract evidently intend. Each as-written behaviour is
    exhibited by a concrete lemma here; each corrected definition comes with
    the intended property proved. */
module Fixes {
  import opened Optional
  import opened TypeList
  import opened Matcher
  import opened Variants

  const BoolT := TypeTag("bool", 1, 1, true)

  // ---------------------------------------------------------------------
  // 1. The copy, move and value constructors leave `m_nCurrentHash` unset.

  /** As written: copy-constructing from an empty variant keeps whatever bits
      the hash member held, so the copy is empty with a non-zero hash and does
      not compare equal to a default-constructed variant. */
  lemma CopyOfEmptyKeepsGarbage(hasher: StdHash)
    ensures var c := CopyConstruct([IntT], Default(), 1);
      && GetIndex(c) == -1 && GetHash(c) == 1
      && !HashCoherent(hasher, c)
      && !Equals(c, Default(), false)
  {
  }

  /** Copy construction with the hash initialised to 0, as `Variant()` does:
      copying an empty variant yields a default-constructed one, and copying a
      non-empty one yields its index, hash and object. */
  function CopyConstructFixed(ts: seq<TypeTag>, src: Variant): (r: Variant)
    ensures src.index == -1 ==> r == Default()
    ensures src.index != -1 ==> r.index == src.index && r.hash == src.hash
    ensures 0 <= src.index < |ts| ==> r.slot.content == src.slot.content
  {
    Copy(ts, Default(), src)
  }

  /** Value construction with the hash initialised to 0: an unlisted type
      leaves a default-constructed variant. */
  function ValueConstructFixed(ts: seq<TypeTag>, hasher: StdHash, x: Value): (r: Variant)
    ensures x.tag !in ts ==> r == Default()
    ensures x.tag in ts ==> Get(ts, r, x.tag) == Stored(x)
  {
    Set(ts, hasher, Default(), x)
  }

  /** The corrected constructors take a coherent source to a coherent
      result, and a copy compares equal to a distinct source. */
  lemma FixedConstructorsCoherent(ts: seq<TypeTag>, hasher: StdHash, src: Variant, x: Value)
    requires Coherent(ts, hasher, src)
    ensures Coherent(ts, hasher, CopyConstructFixed(ts, src))
    ensures Equals(CopyConstructFixed(ts, src), src, false)
    ensures Coherent(ts, hasher, ValueConstructFixed(ts, hasher, x))
  {
    DefaultIsEmpty(ts, hasher);
    CopyPreserves(ts, hasher, Default(), src);
    SetPreserves(ts, hasher, Default(), x);
  }

  // ---------------------------------------------------------------------
  // 2. Copy and move never release the destination's occupant.

  /** As written: copying an `int` variant onto an `Object` variant
      placement-constructs the `int` over the `Object` without running
      `~Object`, leaving two objects owing a destructor call. */
  lemma CopyLeaksOccupant(hasher: StdHash, o: seq<int>, n: seq<int>)
    ensures var ts := [IntT, ObjectT];
      var dst := Set(ts, hasher, Default(), Value(ObjectT, o));
      var src := Set(ts, hasher, Default(), Value(IntT, n));
      var r := Copy(ts, dst, src);
      && r.slot.trace == [Constructed(ObjectT), Constructed(IntT)]
      && Live(r.slot.trace) == 2
      && !NoLeak(r)
  {
    var ts := [IntT, ObjectT];
    assert IndexOf(ObjectT, ts) == 1;
    assert IndexOf(IntT, ts) == 0;
    LiveAppend([], Constructed(ObjectT));
    LiveAppend([Constructed(ObjectT)], Constructed(IntT));
  }

  /** Copy that honours the destination's occupant: with the same alternative
      it copy-assigns in place; with another one it destroys the occupant
      before constructing the copy. An empty source still leaves the
      destination as it was. */
  function CopyFixed(ts: seq<TypeTag>, dst: Variant, src: Variant): (r: Variant)
    ensures src.index == -1 ==> r == dst
    ensures src.index != -1 ==> r.index == src.index && r.hash == src.hash
    ensures 0 <= src.index < |ts| ==> r.slot.content == src.slot.content
    ensures 0 <= src.index < |ts| && dst.index == src.index ==>
      r.slot.trace == dst.slot.trace + [Assigned(ts[src.index])]
    ensures 0 <= src.index < |ts| && 0 <= dst.index < |ts| && dst.index != src.index ==>
      r.slot.trace == dst.slot.trace + [Destroyed(ts[dst.index]), Constructed(ts[src.index])]
  {
    if src.index == -1 then dst
    else if !(0 <= src.index < |ts|) then dst.(index := src.index, hash := src.hash)
    else if dst.index == src.index then
      var t := ts[src.index];
      dst.(hash := src.hash,
           slot := dst.slot.(content := src.slot.content, trace := dst.slot.trace + [Assigned(t)]))
    else
      var t := ts[src.index];
      var d := Destroy(ts, dst);
      assert 0 <= dst.index < |ts| ==>
        d.slot.trace + [Constructed(t)] == dst.slot.trace + [Destroyed(ts[dst.index]), Constructed(t)];
      d.(index := src.index, hash := src.hash,
         slot := d.slot.(content := src.slot.content, trace := d.slot.trace + [Constructed(t)]))
  }

  /** The corrected copy keeps every invariant, the destructor obligations
      included: whatever the destination held, exactly one object owes a
      destructor call afterwards when the result is non-empty. */
  lemma CopyFixedPreserves(ts: seq<TypeTag>, hasher: StdHash, dst: Variant, src: Variant)
    requires Coherent(ts, hasher, dst) && Coherent(ts, hasher, src)
    ensures Coherent(ts, hasher, CopyFixed(ts, dst, src))
  {
    if src.index != -1 {
      var t := ts[src.index];
      if dst.index == src.index {
        LiveAppend(dst.slot.trace, Assigned(t));
      } else {
        var d := Destroy(ts, dst);
        LiveAppend(d.slot.trace, Constructed(t));
      }
    }
  }

  // ---------------------------------------------------------------------
  // 3. An object does not compare equal to itself.

  /** Equality on indices and cached hashes, whether or not the operands are
      the same object. */
  function EqualsFixed(a: Variant, b: Variant): (r: bool)
    ensures a == b ==> r
    ensures r ==> HashOf(a) == HashOf(b)
  {
    a.index == b.index && a.hash == b.hash
  }

  /** The corrected equality is an equivalence relation and agrees with the
      written one on distinct objects. */
  lemma EqualsFixedIsEquivalence(a: Variant, b: Variant, c: Variant)
    ensures EqualsFixed(a, a)
    ensures EqualsFixed(a, b) ==> EqualsFixed(b, a)
    ensures EqualsFixed(a, b) && EqualsFixed(b, c) ==> EqualsFixed(a, c)
    ensures EqualsFixed(a, b) == Equals(a, b, false)
  {
  }

  // ---------------------------------------------------------------------
  // 4. `Is<U>` holds on an empty variant for every unlisted `U`.

  /** As written: on an empty `Variant<int, float, double>`, `Is<bool>()`
      holds, since both `IndexOf<bool>` and the index are -1, and `Get<bool>()`
      reads the raw slot instead of returning the placeholder. */
  lemma IsUnlistedOnEmpty()
    ensures var ts := [IntT, FloatT, DoubleT];
      && Is(ts, Default(), BoolT)
      && Get(ts, Default(), BoolT) == Indeterminate
  {
    assert BoolT !in [IntT, FloatT, DoubleT];
  }

  /** `Is<T>()` that also requires `T` to be listed. */
  function IsFixed(ts: seq<TypeTag>, v: Variant, t: TypeTag): (r: bool)
    ensures r ==> t in ts
    ensures v.index == -1 ==> !r
  {
    IndexOf(t, ts) != -1 && IndexOf(t, ts) == v.index
  }

  /** `Get<T>()` that returns the placeholder whenever `IsFixed` fails. */
  function GetFixed(ts: seq<TypeTag>, v: Variant, t: TypeTag): (r: Read)
    ensures r.Stored? ==> t in ts && v.slot.content == Some(r.value)
    ensures v.index == -1 ==> r == Placeholder
  {
    if IsFixed(ts, v, t) then
      match v.slot.content
      case Some(x) => Stored(x)
      case None => Indeterminate
    else Placeholder
  }

  /** In a well-formed state the corrected `Is<T>` holds exactly when an
      object of type `T` is stored, and the corrected `Get<T>` then returns
      that object and the placeholder otherwise; it never reads an empty slot. */
  lemma IsFixedIff(ts: seq<TypeTag>, v: Variant, t: TypeTag)
    requires Wf(ts, v)
    ensures IsFixed(ts, v, t) <==> v.slot.content.Some? && v.slot.content.value.tag == t
    ensures GetFixed(ts, v, t) == if IsFixed(ts, v, t) then Stored(v.slot.content.value) else Placeholder
  {
    IsIff(ts, v, t);
  }
}
