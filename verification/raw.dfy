/** The concrete layout of an xtring (src/xtr_internal.h): the two counters and
    a buffer of `capacity + 1` bytes that is null-terminated at `used` and again
    at `capacity`; the terminator setters; and the overlap-aware move that
    erases the bytes it moved out of (`memmove_secure`, src/xtr_utils.c). */
module Raw {
  import opened Wrappers
  import opened Sizing

  /** `struct xtr`. The source's revisions call the counters
      `max_str_len`/`used_str_len` and `capacity`/`used`; they are the same. */
  datatype Struct = Struct(capacity: nat, used: nat, buffer: seq<bv8>)

  /** The allocated buffer holds `capacity` content bytes plus one terminator. */
  predicate Sized(s: Struct) {
    |s.buffer| == s.capacity + TERMINATOR_LEN
  }

  /** The layout invariant: `used <= capacity` and both terminators in place. */
  predicate Terminated(s: Struct) {
    Sized(s) && s.used <= s.capacity && s.buffer[s.used] == 0 && s.buffer[s.capacity] == 0
  }

  /** `set_used_and_terminator`: only `used` and the two terminator bytes change. */
  function SetUsedAndTerminator(s: Struct, used: nat): (r: Struct)
    requires Sized(s) && used <= s.capacity
    ensures Terminated(r) && r.used == used && r.capacity == s.capacity
    ensures |r.buffer| == |s.buffer|
    ensures forall i :: 0 <= i < |s.buffer| && i != used && i != s.capacity ==> r.buffer[i] == s.buffer[i]
  {
    s.(used := used, buffer := s.buffer[used := 0][s.capacity := 0])
  }

  /** `set_capacity_and_terminator`: only `capacity` and the byte at the new
      capacity change; the new capacity must lie inside the allocation. */
  function SetCapacityAndTerminator(s: Struct, capacity: nat): (r: Struct)
    requires capacity < |s.buffer|
    ensures |r.buffer| == |s.buffer|
    ensures r.capacity == capacity && r.used == s.used && r.buffer[capacity] == 0
    ensures forall i :: 0 <= i < |s.buffer| && i != capacity ==> r.buffer[i] == s.buffer[i]
  {
    s.(capacity := capacity, buffer := s.buffer[capacity := 0])
  }

  /** What `xtr_new_ensure` builds out of a fresh allocation of `capacity + 1`
      bytes whose contents (`junk`) and counters are uninitialised. */
  function Fresh(capacity: nat, junk: seq<bv8>, junkCapacity: nat, junkUsed: nat): (r: Struct)
    requires |junk| == capacity + TERMINATOR_LEN
    ensures Terminated(r) && r.used == 0 && r.capacity == capacity
  {
    SetUsedAndTerminator(SetCapacityAndTerminator(Struct(junkCapacity, junkUsed, junk), capacity), 0)
  }

  /** Is `i` inside the `len` bytes starting at the (non-NULL) pointer `p`? */
  predicate InRegion(i: nat, p: Option<nat>, len: nat) {
    p.Some? && p.value <= i < p.value + len
  }

  /** `memmove`: the destination receives the source bytes as they were before
      the call, whatever the overlap. */
  function Move(mem: seq<bv8>, dst: nat, src: nat, len: nat): (r: seq<bv8>)
    requires dst + len <= |mem| && src + len <= |mem|
    ensures |r| == |mem|
  {
    seq(|mem|, i requires 0 <= i < |mem| => if dst <= i < dst + len then mem[src + (i - dst)] else mem[i])
  }

  /** `zero_out` of `len` bytes at `from`. */
  function ZeroOut(mem: seq<bv8>, from: nat, len: nat): (r: seq<bv8>)
    requires from + len <= |mem|
    ensures |r| == |mem|
  {
    seq(|mem|, i requires 0 <= i < |mem| => if from <= i < from + len then 0 else mem[i])
  }

  /** `memmove_secure` over a flat memory, pointers being offsets into it.
      Source lines 83-92 of src/xtr_utils.c zero `[dst, dst + (dst - src))`
      where their own comment says "erase from src to dst"; the model follows
      the comment (see `MemmoveSecureAsWritten`). */
  function MemmoveSecure(mem: seq<bv8>, dst: Option<nat>, src: Option<nat>, len: nat): (r: seq<bv8>)
    requires dst.Some? ==> dst.value + len <= |mem|
    requires src.Some? ==> src.value + len <= |mem|
    ensures |r| == |mem|
    // no-op on NULL, on identical pointers and on an empty region
    ensures dst.None? || src.None? || dst == src || len == 0 ==> r == mem
    // the destination holds the original source bytes
    ensures dst.Some? && src.Some? ==> r[dst.value..dst.value + len] == mem[src.value..src.value + len]
    // every source byte that the destination does not cover is erased
    ensures dst.Some? && src.Some? && dst != src ==>
      forall i :: src.value <= i < src.value + len && !InRegion(i, dst, len) ==> r[i] == 0
    // nothing outside the two regions changes
    ensures forall i :: 0 <= i < |mem| && !InRegion(i, dst, len) && !InRegion(i, src, len) ==> r[i] == mem[i]
  {
    if dst.None? || src.None? || dst.value == src.value || len == 0 then mem
    else
      var d, s := dst.value, src.value;
      var moved := Move(mem, d, s, len);
      if s < d && d < s + len then
        // source before destination: erase [s, d)
        MoveThenErase(mem, d, s, len, s, d - s);
        ZeroOut(moved, s, d - s)
      else if d < s && s < d + len then
        // destination before source: erase [d + len, s + len)
        MoveThenErase(mem, d, s, len, d + len, s - d);
        ZeroOut(moved, d + len, s - d)
      else
        // disjoint: erase the whole source
        MoveThenErase(mem, d, s, len, s, len);
        ZeroOut(moved, s, len)
  }

  /** Moving `len` bytes from `s` to `d` and then erasing a part of the
      source that misses the destination but covers every source byte outside
      it: the destination keeps the moved bytes, the uncovered source is zero
      and everything outside the two regions is as before. */
  lemma MoveThenErase(mem: seq<bv8>, d: nat, s: nat, len: nat, from: nat, n: nat)
    requires d + len <= |mem| && s + len <= |mem|
    requires s <= from && from + n <= s + len
    requires from + n <= d || d + len <= from
    requires s < d ==> from <= s && (s + len <= from + n || d <= from + n)
    requires d + len < s + len ==> s + len <= from + n && (from <= s || from <= d + len)
    ensures var r := ZeroOut(Move(mem, d, s, len), from, n);
      && r[d..d + len] == mem[s..s + len]
      && (forall i :: s <= i < s + len && !InRegion(i, Some(d), len) ==> r[i] == 0)
      && (forall i :: 0 <= i < |mem| && !InRegion(i, Some(d), len) && !InRegion(i, Some(s), len) ==> r[i] == mem[i])
  {
    var m := Move(mem, d, s, len);
    var r := ZeroOut(m, from, n);
    forall i | d <= i < d + len
      ensures r[i] == mem[s + (i - d)]
    {
      assert r[i] == m[i];
    }
    assert r[d..d + len] == mem[s..s + len];
  }

  /** `memmove_secure` exactly as written: in the source-before-destination case
      it zeroes `d - s` bytes starting at the destination. */
  function MemmoveSecureAsWritten(mem: seq<bv8>, dst: Option<nat>, src: Option<nat>, len: nat): (r: seq<bv8>)
    requires dst.Some? ==> dst.value + len <= |mem|
    requires src.Some? ==> src.value + len <= |mem|
    ensures |r| == |mem|
  {
    if dst.None? || src.None? || dst.value == src.value || len == 0 then mem
    else
      var d, s := dst.value, src.value;
      var moved := Move(mem, d, s, len);
      if s < d && d < s + len then ZeroOut(moved, d, d - s)
      else if d < s && s < d + len then ZeroOut(moved, d + len, s - d)
      else ZeroOut(moved, s, len)
  }

  /** Moving [1, 2] one byte forward: as written, the first moved byte is
      zeroed again, so the destination no longer holds the source bytes. */
  lemma MemmoveForwardClobbersDestination()
    ensures MemmoveSecureAsWritten([1, 2, 3, 0], Some(1), Some(0), 2)[1..3] == [0, 2]
    ensures MemmoveSecure([1, 2, 3, 0], Some(1), Some(0), 2)[1..3] == [1, 2]
  {
    var mem: seq<bv8> := [1, 2, 3, 0];
    var moved := Move(mem, 1, 0, 2);
    assert moved == [1, 1, 2, 0];
    assert ZeroOut(moved, 1, 1) == [1, 0, 2, 0];
    assert ZeroOut(moved, 0, 1) == [0, 1, 2, 0];
  }
}
