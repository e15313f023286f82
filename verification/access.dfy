/** Read-only queries on one xtring (src/xtr_get.c, src/xtr_unarycmp.c). A NULL
    xtring reads as length, capacity and free space 0 and satisfies none of the
    content predicates. */
module Access {
  import opened Wrappers
  import opened Sizing
  import opened Bytes
  import opened Xtring

  function Length(x: Option<Xtring>): (r: Size)
    ensures x.Some? ==> r == |x.value.content|
    ensures x.None? ==> r == 0
  {
    if x.None? then 0 else |x.value.content|
  }

  function Capacity(x: Option<Xtring>): (r: Size)
    ensures x.Some? ==> r == x.value.capacity
    ensures x.None? ==> r == 0
  {
    if x.None? then 0 else x.value.capacity
  }

  /** `xtr_available`: free bytes after the content. */
  function Available(x: Option<Xtring>): (r: Size)
    ensures r <= Capacity(x)
  {
    if x.None? then 0 else x.value.capacity - |x.value.content|
  }

  /** The three counters are consistent: the content and the free space fill
      the capacity, for a NULL xtring too. */
  lemma LengthAvailableCapacity(x: Option<Xtring>)
    ensures Length(x) + Available(x) == Capacity(x)
    ensures Length(x) <= Capacity(x) <= MAX_CAPACITY
  {
  }

  /** `xtr_last`: the final content byte, None for a NULL or empty xtring. */
  function Last(x: Option<Xtring>): (r: Option<bv8>)
    ensures r.Some? <==> Length(x) > 0
    ensures r.Some? ==> r.value == x.value.content[Length(x) - 1]
  {
    if x.None? || |x.value.content| == 0 then None
    else Some(x.value.content[|x.value.content| - 1])
  }

  /** `xtr_at`: the byte at `index`, None outside the content. */
  function At(x: Option<Xtring>, index: Size): (r: Option<bv8>)
    ensures r.Some? <==> index < Length(x)
    ensures r.Some? ==> r.value == x.value.content[index]
  {
    if x.None? || index >= |x.value.content| then None
    else Some(x.value.content[index])
  }

  /** The last byte is the byte at the last index. */
  lemma LastIsAtLastIndex(x: Option<Xtring>)
    requires Length(x) > 0
    ensures Last(x) == At(x, Length(x) - 1)
  {
  }

  /** `xtr_slice`: the bytes of `[start, end)` with `end` clamped to the
      length; an empty range gives zero bytes. None for a NULL xtring or a
      refused descriptor allocation. */
  function Slice(x: Option<Xtring>, start: Size, end: Size, granted: bool): (r: Option<seq<bv8>>)
    ensures r.Some? <==> x.Some? && granted
    ensures r.Some? ==> |r.value| == if start < Min(end, Length(x)) then Min(end, Length(x)) - start else 0
    ensures r.Some? ==> forall i :: 0 <= i < |r.value| ==> r.value[i] == x.value.content[start + i]
  {
    if x.None? || !granted then None
    else
      var c := x.value.content;
      var stop := if end > |c| then |c| else end;
      if start >= stop || start >= |c| then Some([])
      else Some(c[start..stop])
  }

  /** Adjacent slices concatenate to the slice over their union, and the slice
      of the whole range is the content. */
  lemma SliceSplit(x: Option<Xtring>, start: Size, mid: Size, end: Size)
    requires x.Some? && start <= mid <= end
    ensures Slice(x, start, mid, true).value + Slice(x, mid, end, true).value == Slice(x, start, end, true).value
    ensures Slice(x, 0, SIZE_MAX, true).value == x.value.content
  {
    var c := x.value.content;
    var a := Slice(x, start, mid, true).value;
    var b := Slice(x, mid, end, true).value;
    var s := Slice(x, start, end, true).value;
    assert |a + b| == |s|;
    forall i | 0 <= i < |s|
      ensures (a + b)[i] == s[i]
    {
      if i < |a| {
        assert (a + b)[i] == a[i];
      } else {
        assert (a + b)[i] == b[i - |a|];
      }
    }
  }

  /** `xtr_is_empty`. */
  function IsEmpty(x: Option<Xtring>): (r: bool)
    ensures r <==> Length(x) == 0
  {
    x.None? || |x.value.content| == 0
  }

  predicate AllZero(s: seq<bv8>) {
    forall i :: 0 <= i < |s| ==> s[i] == 0
  }

  predicate AllSpace(s: seq<bv8>) {
    forall i :: 0 <= i < |s| ==> IsSpace(s[i])
  }

  /** `xtr_is_zeros`: non-empty and every byte zero; stops at the first
      non-zero byte. */
  method IsZeros(x: Option<Xtring>) returns (r: bool)
    ensures r <==> !IsEmpty(x) && AllZero(x.value.content)
  {
    if IsEmpty(x) {
      return false;
    }
    var c := x.value.content;
    var i := 0;
    while i < |c|
      invariant 0 <= i <= |c|
      invariant forall k :: 0 <= k < i ==> c[k] == 0
    {
      if c[i] != 0 {
        return false;
      }
      i := i + 1;
    }
    return true;
  }

  /** `xtr_is_zeros_consttime`: ORs every byte together, with the same answer
      as `IsZeros`. */
  method IsZerosConsttime(x: Option<Xtring>) returns (r: bool)
    ensures r <==> !IsEmpty(x) && AllZero(x.value.content)
  {
    if IsEmpty(x) {
      return false;
    }
    var c := x.value.content;
    var combined: bv8 := 0;
    var i := 0;
    while i < |c|
      invariant 0 <= i <= |c|
      invariant combined == 0 <==> forall k :: 0 <= k < i ==> c[k] == 0
    {
      combined := combined | c[i];
      i := i + 1;
    }
    return combined == 0;
  }

  /** `xtr_is_not_zeros`: non-empty and some byte non-zero. */
  method IsNotZeros(x: Option<Xtring>) returns (r: bool)
    ensures r <==> !IsEmpty(x) && !AllZero(x.value.content)
  {
    if IsEmpty(x) {
      return false;
    }
    var c := x.value.content;
    var i := 0;
    while i < |c|
      invariant 0 <= i <= |c|
      invariant forall k :: 0 <= k < i ==> c[k] == 0
    {
      if c[i] != 0 {
        return true;
      }
      i := i + 1;
    }
    return false;
  }

  method IsNotZerosConsttime(x: Option<Xtring>) returns (r: bool)
    ensures r <==> !IsEmpty(x) && !AllZero(x.value.content)
  {
    if IsEmpty(x) {
      return false;
    }
    var c := x.value.content;
    var combined: bv8 := 0;
    var i := 0;
    while i < |c|
      invariant 0 <= i <= |c|
      invariant combined == 0 <==> forall k :: 0 <= k < i ==> c[k] == 0
    {
      combined := combined | c[i];
      i := i + 1;
    }
    return combined != 0;
  }

  /** `xtr_is_spaces`: non-empty and every byte ASCII whitespace. */
  method IsSpaces(x: Option<Xtring>) returns (r: bool)
    ensures r <==> !IsEmpty(x) && AllSpace(x.value.content)
  {
    if IsEmpty(x) {
      return false;
    }
    var c := x.value.content;
    var i := 0;
    while i < |c|
      invariant 0 <= i <= |c|
      invariant forall k :: 0 <= k < i ==> IsSpace(c[k])
    {
      if !IsSpace(c[i]) {
        return false;
      }
      i := i + 1;
    }
    return true;
  }
}
