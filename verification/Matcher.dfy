/** The run-time helpers of `wtr::util`: the hash fallback (`HashMatcher`),
    the shared slot (`AlignedStorage`) and the index dispatch
    (`TypeMatcher`) that copies, moves or destroys the k-th alternative. */
module Matcher {
  import opened Optional
  import opened TypeList

  /** A `size_t` hash value. */
  type Hash = h: int | 0 <= h < 0x1_0000_0000_0000_0000

  /** `std::hash` of the hashable alternatives, left uninterpreted. */
  type StdHash = Value -> Hash

  /** `HashMatcher<T>::GetHash`: the standard hash when `std::hash<T>`
      exists, and 0 for every value of a type without one. */
  function HashMatcher(hasher: StdHash, x: Value): (r: Hash)
    ensures !x.tag.hashable ==> r == 0
    ensures x.tag.hashable ==> r == hasher(x)
  {
    if x.tag.hashable then hasher(x) else 0
  }

  /** One lifecycle step taken on the slot: an alternative's constructor
      (placement `new`), its assignment operator, or its destructor. */
  datatype Event = Constructed(tag: TypeTag) | Assigned(tag: TypeTag) | Destroyed(tag: TypeTag)

  /** `AlignedStorage<Size, Align>`: the `valid` flag, the object whose
      representation the bytes of `data` currently hold (if any), and the
      lifecycle steps taken on the slot so far. The raw bytes, their size and
      their alignment are not modelled; `SizeOf`/`AlignOf` give the latter. */
  datatype Storage = Storage(valid: bool, content: Option<Value>, trace: seq<Event>)

  /** A freshly constructed slot: `valid` starts false. */
  function NewStorage(): (s: Storage)
    ensures !s.valid && s.content == None && Live(s.trace) == 0
  {
    Storage(false, None, [])
  }

  function Delta(e: Event): int {
    match e
    case Constructed(_) => 1
    case Assigned(_) => 0
    case Destroyed(_) => -1
  }

  /** The number of objects constructed in the slot whose destructor has not
      run: every construction owes one destructor call. */
  function Live(trace: seq<Event>): int {
    if |trace| == 0 then 0 else Live(trace[..|trace| - 1]) + Delta(trace[|trace| - 1])
  }

  lemma LiveAppend(trace: seq<Event>, e: Event)
    ensures Live(trace + [e]) == Live(trace) + Delta(e)
  {
    assert (trace + [e])[..|trace|] == trace;
  }

  /** The `_index == 0` branch of `TypeMatcher::Copy` for alternative `t`:
      placement-construct a copy of the source's object when the destination
      is not `valid`, otherwise copy-assign onto the destination's object. */
  function CopyAlternative(t: TypeTag, lhs: Storage, rhs: Storage): (r: Storage)
    ensures r.content == rhs.content && r.valid == lhs.valid
    ensures !lhs.valid ==> r.trace == lhs.trace + [Constructed(t)] && Live(r.trace) == Live(lhs.trace) + 1
    ensures lhs.valid ==> r.trace == lhs.trace + [Assigned(t)] && Live(r.trace) == Live(lhs.trace)
  {
    LiveAppend(lhs.trace, Constructed(t));
    LiveAppend(lhs.trace, Assigned(t));
    if !lhs.valid then
      lhs.(content := rhs.content, trace := lhs.trace + [Constructed(t)])
    else
      lhs.(content := rhs.content, trace := lhs.trace + [Assigned(t)])
  }

  /** The `_index == 0` branch of `TypeMatcher::Move` for alternative `t`.
      `rhsValue` is a named rvalue reference, hence an lvalue, so both the
      placement `new` and the assignment pick the COPY operations; the source
      slot is left as it was. */
  function MoveAlternative(t: TypeTag, lhs: Storage, rhs: Storage): (r: (Storage, Storage))
    ensures r.1 == rhs
    ensures r.0.content == rhs.content && r.0.valid == lhs.valid
    ensures !lhs.valid ==> r.0.trace == lhs.trace + [Constructed(t)] && Live(r.0.trace) == Live(lhs.trace) + 1
    ensures lhs.valid ==> r.0.trace == lhs.trace + [Assigned(t)] && Live(r.0.trace) == Live(lhs.trace)
  {
    LiveAppend(lhs.trace, Constructed(t));
    LiveAppend(lhs.trace, Assigned(t));
    if !lhs.valid then
      (lhs.(content := rhs.content, trace := lhs.trace + [Constructed(t)]), rhs)
    else
      (lhs.(content := rhs.content, trace := lhs.trace + [Assigned(t)]), rhs)
  }

  /** The `_index == 0` branch of `TypeMatcher::Destroy` for alternative `t`:
      run `~T` on the slot's object and clear `valid`. */
  function DestroyAlternative(t: TypeTag, s: Storage): (r: Storage)
    ensures !r.valid && r.content == None
    ensures r.trace == s.trace + [Destroyed(t)] && Live(r.trace) == Live(s.trace) - 1
  {
    LiveAppend(s.trace, Destroyed(t));
    s.(valid := false, content := None, trace := s.trace + [Destroyed(t)])
  }

  /** `TypeMatcher<Storage, TypeList<Ts...>>::Copy`: walk the list,
      decrementing the index. It acts on exactly the k-th alternative when k
      is in range; otherwise it reaches the empty list, whose assertion is a
      no-op in a release build. */
  function MatchCopy(ts: seq<TypeTag>, lhs: Storage, rhs: Storage, k: int): (r: Storage)
    ensures r == if 0 <= k < |ts| then CopyAlternative(ts[k], lhs, rhs) else lhs
    decreases |ts|
  {
    if |ts| == 0 then lhs
    else if k == 0 then CopyAlternative(ts[0], lhs, rhs)
    else
      var r := MatchCopy(ts[1..], lhs, rhs, k - 1);
      assert 0 < k < |ts| ==> ts[1..][k - 1] == ts[k];
      r
  }

  /** `TypeMatcher<Storage, TypeList<Ts...>>::Move`, returning the
      destination slot and the source slot after the call. */
  function MatchMove(ts: seq<TypeTag>, lhs: Storage, rhs: Storage, k: int): (r: (Storage, Storage))
    ensures r == if 0 <= k < |ts| then MoveAlternative(ts[k], lhs, rhs) else (lhs, rhs)
    decreases |ts|
  {
    if |ts| == 0 then (lhs, rhs)
    else if k == 0 then MoveAlternative(ts[0], lhs, rhs)
    else
      var r := MatchMove(ts[1..], lhs, rhs, k - 1);
      assert 0 < k < |ts| ==> ts[1..][k - 1] == ts[k];
      r
  }

  /** `TypeMatcher<Storage, TypeList<Ts...>>::Destroy`: destroys exactly the
      k-th alternative when k is in range, and changes nothing otherwise. */
  function MatchDestroy(ts: seq<TypeTag>, s: Storage, k: int): (r: Storage)
    ensures r == if 0 <= k < |ts| then DestroyAlternative(ts[k], s) else s
    decreases |ts|
  {
    if |ts| == 0 then s
    else if k == 0 then DestroyAlternative(ts[0], s)
    else
      var r := MatchDestroy(ts[1..], s, k - 1);
      assert 0 < k < |ts| ==> ts[1..][k - 1] == ts[k];
      r
  }

  /** The move dispatch is the copy dispatch: same destination slot, and the
      source slot comes back unchanged. */
  lemma {:induction false} MatchMoveIsMatchCopy(ts: seq<TypeTag>, lhs: Storage, rhs: Storage, k: int)
    ensures MatchMove(ts, lhs, rhs, k) == (MatchCopy(ts, lhs, rhs, k), rhs)
  {
  }

  /** On a slot whose `valid` flag is clear, a dispatched copy takes the
      placement-new branch: it appends exactly one construction, never an
      assignment or a destruction, so the previous occupant's destructor is
      never run and the live count grows by one. */
  lemma CopyOnInvalidSlotConstructs(ts: seq<TypeTag>, lhs: Storage, rhs: Storage, k: int)
    requires !lhs.valid
    requires 0 <= k < |ts|
    ensures MatchCopy(ts, lhs, rhs, k).trace == lhs.trace + [Constructed(ts[k])]
    ensures Live(MatchCopy(ts, lhs, rhs, k).trace) == Live(lhs.trace) + 1
    ensures !MatchCopy(ts, lhs, rhs, k).valid
  {
    LiveAppend(lhs.trace, Constructed(ts[k]));
  }

  /** A dispatched destroy in range runs the k-th destructor once. */
  lemma DestroyReleasesOne(ts: seq<TypeTag>, s: Storage, k: int)
    requires 0 <= k < |ts|
    ensures MatchDestroy(ts, s, k).trace == s.trace + [Destroyed(ts[k])]
    ensures Live(MatchDestroy(ts, s, k).trace) == Live(s.trace) - 1
    ensures !MatchDestroy(ts, s, k).valid && MatchDestroy(ts, s, k).content == None
  {
    LiveAppend(s.trace, Destroyed(ts[k]));
  }
}
