/** The abstract xtring: a capacity and the `used` content bytes, plus the
    allocation protocol every constructor goes through (`xtr_new_ensure`,
    `xtr_free`, src/xtr_new.c). */
module Xtring {
  import opened Wrappers
  import opened Sizing
  import Raw

  /** Capacity counts content bytes and excludes the terminator; `content`
      holds the `used` bytes. */
  datatype Xtr = Xtr(capacity: nat, content: seq<bv8>) {

    /** `used <= capacity`, and the allocation size of `capacity` fits a `size_t`. */
    predicate Valid() {
      |content| <= capacity <= MAX_CAPACITY
    }

    function Used(): nat {
      |content|
    }
  }

  /** Every xtring that exists satisfies the struct invariant. */
  type Xtring = x: Xtr | x.Valid() witness Xtr(0, [])

  /** What an operation leaves in the caller's xtring or handle (`updated`) and
      what it returns (`result`); None stands for NULL. */
  datatype Effect = Effect(updated: Option<Xtring>, result: Option<Xtring>)

  /** The content and capacity a concrete struct stands for. */
  function Abs(s: Raw.Struct): Xtr
    requires s.used <= |s.buffer|
  {
    Xtr(s.capacity, s.buffer[..s.used])
  }

  /** `xtr_new_ensure(max_len)`: an empty xtring of capacity `max_len`, or None
      when the allocation size overflows or the allocator refuses (`granted`
      is the allocator's answer). */
  function NewEnsure(maxLen: Size, granted: bool): (r: Option<Xtring>)
    ensures r.Some? <==> granted && maxLen <= MAX_CAPACITY
    ensures r.Some? ==> r.value.capacity == maxLen && r.value.content == []
  {
    if StructSize(maxLen) == SIZE_OVERFLOW then None
    else if !granted then None
    else Some(Xtr(maxLen, []))
  }

  /** The struct `xtr_new_ensure` lays out in a fresh allocation is terminated
      and stands for the xtring `NewEnsure` returns, whatever the allocation
      held before. */
  lemma NewEnsureLayout(maxLen: Size, junk: seq<bv8>, junkCapacity: nat, junkUsed: nat)
    requires maxLen <= MAX_CAPACITY && |junk| == maxLen + TERMINATOR_LEN
    ensures Raw.Terminated(Raw.Fresh(maxLen, junk, junkCapacity, junkUsed))
    ensures Some(Abs(Raw.Fresh(maxLen, junk, junkCapacity, junkUsed))) == NewEnsure(maxLen, true)
  {
  }

  /** `xtr_new_empty`: `xtr_new_ensure(0)`. */
  function NewEmpty(granted: bool): (r: Option<Xtring>)
    ensures r.Some? <==> granted
    ensures r.Some? ==> r.value.capacity == 0 && r.value.content == []
  {
    NewEnsure(0, granted)
  }

  /** `xtr_free`: NULL-safe, and the caller's handle is NULL afterwards. */
  function Free(handle: Option<Xtring>): (r: Option<Xtring>)
    ensures r.None?
  {
    None
  }

  /** The concrete struct an xtring is stored in: content, then the free region
      (whatever it holds), with the terminators written by the setter. */
  function Store(x: Xtring, free: seq<bv8>): (s: Raw.Struct)
    requires |free| == x.capacity - |x.content| + TERMINATOR_LEN
    ensures Raw.Terminated(s) && Abs(s) == x
  {
    Raw.SetUsedAndTerminator(Raw.Struct(x.capacity, 0, x.content + free), |x.content|)
  }
}
