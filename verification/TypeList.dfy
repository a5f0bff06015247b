/** The compile-time alternative registry of `wtr::util`: a variadic type list
    becomes a sequence of type tags, and the three template folds over it
    (`SizeCalculator`, `AlignCalculator`, `IndexCalculator`) become recursive
    functions that follow the templates' specialisations case by case. */
module TypeList {

  /** One alternative type: its identity, its `sizeof`, its `alignof`, and
      whether a `std::hash` specialisation exists for it. Two tags stand for
      the same C++ type exactly when they are equal. */
  datatype TypeTag = TypeTag(name: string, size: nat, align: nat, hashable: bool)

  /** An object of some alternative: its type and its abstract contents. */
  datatype Value = Value(tag: TypeTag, payload: seq<int>)

  /** No type occurs twice in the list. */
  predicate Distinct(ts: seq<TypeTag>) {
    forall i, j :: 0 <= i < j < |ts| ==> ts[i] != ts[j]
  }

  /** The largest `sizeof` in the list, 0 for the empty list: the size a
      shared slot actually needs. */
  function MaxSize(ts: seq<TypeTag>): (r: nat)
    ensures forall i :: 0 <= i < |ts| ==> ts[i].size <= r
    ensures |ts| > 0 ==> exists i :: 0 <= i < |ts| && ts[i].size == r
  {
    if |ts| == 0 then 0
    else
      var rest := MaxSize(ts[1..]);
      assert forall i :: 1 <= i < |ts| ==> ts[i] == ts[1..][i - 1];
      if ts[0].size > rest then ts[0].size else rest
  }

  /** `SizeOf<Args...>()`: the empty list is 0, a single type is its own
      size, and a longer list adds the head's size to the tail's. The slot is
      therefore as large as the SUM of the sizes, which is at least the size of
      every alternative. */
  function SizeOf(ts: seq<TypeTag>): (r: nat)
    ensures forall i :: 0 <= i < |ts| ==> ts[i].size <= r
    ensures |ts| == 0 ==> r == 0
    ensures |ts| == 1 ==> r == ts[0].size
  {
    if |ts| == 0 then 0
    else if |ts| == 1 then ts[0].size
    else
      var rest := SizeOf(ts[1..]);
      assert forall i :: 1 <= i < |ts| ==> ts[i] == ts[1..][i - 1];
      ts[0].size + rest
  }

  /** `SizeOf` distributes over concatenation of type lists. */
  lemma {:induction false} SizeOfConcat(a: seq<TypeTag>, b: seq<TypeTag>)
    ensures SizeOf(a + b) == SizeOf(a) + SizeOf(b)
    decreases |a|
  {
    if |a| == 0 {
      assert a + b == b;
    } else if |a| == 1 {
      if |b| == 0 {
        assert a + b == a;
      } else {
        assert (a + b)[1..] == b;
      }
    } else {
      assert (a + b)[1..] == a[1..] + b;
      SizeOfConcat(a[1..], b);
    }
  }

  /** The sizes added up from the back of the list, one alternative at a
      time: an independent statement of "the sum of all sizes". */
  function SumSizes(ts: seq<TypeTag>): nat {
    if |ts| == 0 then 0 else SumSizes(ts[..|ts| - 1]) + ts[|ts| - 1].size
  }

  /** `SizeOf` is exactly the sum of the alternatives' sizes. */
  lemma {:induction false} SizeOfIsSum(ts: seq<TypeTag>)
    ensures SizeOf(ts) == SumSizes(ts)
    decreases |ts|
  {
    if |ts| > 0 {
      var init := ts[..|ts| - 1];
      assert ts == init + [ts[|ts| - 1]];
      SizeOfConcat(init, [ts[|ts| - 1]]);
      SizeOfIsSum(init);
    }
  }

  /** With two or more alternatives of non-zero size, the summed slot is
      strictly larger than the largest alternative. */
  lemma {:induction false} SizeOfExceedsMaxSize(ts: seq<TypeTag>)
    requires |ts| >= 2
    requires forall i :: 0 <= i < |ts| ==> ts[i].size > 0
    ensures SizeOf(ts) > MaxSize(ts)
    decreases |ts|
  {
    var rest := ts[1..];
    assert forall i :: 0 <= i < |rest| ==> rest[i] == ts[i + 1];
    if |ts| == 2 {
      assert SizeOf(rest) == rest[0].size == MaxSize(rest);
    } else {
      SizeOfExceedsMaxSize(rest);
    }
  }

  /** `AlignOf<Args...>()`: the empty list is 0, a single type is its own
      alignment, and a longer list keeps the larger of the head's alignment
      and the tail's. The result is the greatest alignment in the list. */
  function AlignOf(ts: seq<TypeTag>): (r: nat)
    ensures forall i :: 0 <= i < |ts| ==> ts[i].align <= r
    ensures |ts| > 0 ==> exists i :: 0 <= i < |ts| && ts[i].align == r
    ensures |ts| == 0 ==> r == 0
  {
    if |ts| == 0 then 0
    else if |ts| == 1 then ts[0].align
    else
      var rest := AlignOf(ts[1..]);
      assert forall i :: 1 <= i < |ts| ==> ts[i] == ts[1..][i - 1];
      if ts[0].align > rest then ts[0].align else rest
  }

  /** The alignment of a concatenated list is the larger of the two parts'. */
  lemma {:induction false} AlignOfConcat(a: seq<TypeTag>, b: seq<TypeTag>)
    ensures AlignOf(a + b) == if AlignOf(a) > AlignOf(b) then AlignOf(a) else AlignOf(b)
  {
    var r := AlignOf(a + b);
    assert forall i :: 0 <= i < |a| ==> (a + b)[i] == a[i];
    assert forall i :: 0 <= i < |b| ==> (a + b)[|a| + i] == b[i];
    if |a| + |b| > 0 {
      var k :| 0 <= k < |a + b| && (a + b)[k].align == r;
      if k < |a| {
        assert a[k].align == r;
      } else {
        assert b[k - |a|].align == r;
      }
    } else {
      assert a + b == [];
    }
  }

  /** `IndexCalculator<T, Args...>::found`: whether `t` occurs in the list. */
  function Found(t: TypeTag, ts: seq<TypeTag>): (r: bool)
    ensures r <==> t in ts
  {
    if |ts| == 0 then false
    else
      assert ts == [ts[0]] + ts[1..];
      ts[0] == t || Found(t, ts[1..])
  }

  /** `IndexOf<T, Args...>()`: -1 for the empty list; otherwise, when `t`
      occurs, one more than the index in the tail (which is -1 when the head
      is the only occurrence), else -1. The result is -1 exactly when `t` is
      not listed, and otherwise a position holding `t`. */
  function IndexOf(t: TypeTag, ts: seq<TypeTag>): (r: int)
    ensures -1 <= r < |ts|
    ensures r == -1 <==> t !in ts
    ensures r != -1 ==> ts[r] == t
  {
    if |ts| == 0 then -1
    else if Found(t, ts) then
      assert ts == [ts[0]] + ts[1..];
      1 + IndexOf(t, ts[1..])
    else -1
  }

  /** With duplicates the recursion lands on the LAST occurrence: no later
      position holds `t`. */
  lemma {:induction false} IndexOfIsLastOccurrence(t: TypeTag, ts: seq<TypeTag>)
    requires t in ts
    ensures forall j :: IndexOf(t, ts) < j < |ts| ==> ts[j] != t
    decreases |ts|
  {
    assert ts == [ts[0]] + ts[1..];
    var rest := ts[1..];
    if t in rest {
      IndexOfIsLastOccurrence(t, rest);
      assert forall j :: IndexOf(t, ts) < j < |ts| ==> ts[j] == rest[j - 1];
    } else {
      assert forall j :: 0 < j < |ts| ==> ts[j] == rest[j - 1];
    }
  }

  /** In a list without duplicates, `IndexOf` of the k-th type is k. */
  lemma IndexOfDistinct(ts: seq<TypeTag>, k: int)
    requires Distinct(ts)
    requires 0 <= k < |ts|
    ensures IndexOf(ts[k], ts) == k
  {
    IndexOfIsLastOccurrence(ts[k], ts);
  }

  /** A run-time scan from the back of the list that finds the same position
      `IndexOf` computes at compile time. */
  method FindIndex(t: TypeTag, ts: seq<TypeTag>) returns (r: int)
    ensures r == IndexOf(t, ts)
  {
    var i := |ts|;
    while i > 0 && ts[i - 1] != t
      invariant 0 <= i <= |ts|
      invariant forall j :: i <= j < |ts| ==> ts[j] != t
      decreases i
    {
      i := i - 1;
    }
    r := i - 1;
    if r != -1 {
      IndexOfIsLastOccurrence(t, ts);
    }
  }
}
