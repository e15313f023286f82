/** Capacity changes (src/xtr_resize.c). `Resize` shrinks in place or grows
    into a copy; the `*Free` variants work through a handle, where the caller's
    xtring is replaced by the result and the old buffer released. */
module Resize {
  import opened Wrappers
  import opened Sizing
  import opened Xtring
  import Construct

  /** `xtr_resize`: below the length, the same xtring is cut to `newCap` bytes
      and keeps its capacity; otherwise a copy of capacity `newCap` is
      returned and the original is left as it was. */
  function Resize(x: Option<Xtring>, newCap: Size, granted: bool): (e: Effect)
    ensures x.None? ==> e == Effect(None, None)
    ensures x.Some? && newCap < |x.value.content| ==>
              e.updated == e.result && e.result == Some(Xtr(x.value.capacity, x.value.content[..newCap]))
    ensures x.Some? && newCap >= |x.value.content| ==> e.updated == x
    ensures x.Some? && newCap >= |x.value.content| ==>
              (e.result.Some? <==> granted && newCap <= MAX_CAPACITY)
    ensures x.Some? && newCap >= |x.value.content| && e.result.Some? ==>
              e.result.value == Xtr(newCap, x.value.content)
  {
    if x.None? then Effect(None, None)
    else if newCap < |x.value.content| then
      var cut := Some(Xtr(x.value.capacity, x.value.content[..newCap]));
      Effect(cut, cut)
    else Effect(x, Construct.Expanded(x, newCap, granted))
  }

  /** Whatever the outcome, a resized xtring holds a prefix of the original
      content: all of it when growing, `newCap` bytes when shrinking. */
  lemma ResizeKeepsPrefix(x: Option<Xtring>, newCap: Size, granted: bool)
    requires x.Some? && Resize(x, newCap, granted).result.Some?
    ensures Resize(x, newCap, granted).result.value.content == x.value.content[..Min(newCap, |x.value.content|)]
    ensures |Resize(x, newCap, granted).result.value.content| == Min(newCap, |x.value.content|)
  {
  }

  /** `xtr_resize_free` as documented: the handle receives the resized xtring
      and the old buffer is released only when it was replaced; on failure the
      handle is untouched. */
  function ResizeFree(handle: Option<Xtring>, newLen: Size, granted: bool): (e: Effect)
    ensures e.result == Resize(handle, newLen, granted).result
    ensures e.result.Some? ==> e.updated == e.result
    ensures e.result.None? ==> e.updated == handle
  {
    var resized := Resize(handle, newLen, granted).result;
    if resized.None? then Effect(handle, None) else Effect(resized, resized)
  }

  /** `xtr_resize_free` as written (lines 84-89): whenever the result is not
      the same object as `*pxtr`, which includes a failed resize, the handle
      is freed, and the result is never stored in it. */
  function ResizeFreeAsWritten(handle: Option<Xtring>, newLen: Size, granted: bool): (e: Effect)
    ensures e.result == Resize(handle, newLen, granted).result
    ensures handle.Some? && newLen >= |handle.value.content| ==> e.updated.None?
  {
    var resized := Resize(handle, newLen, granted).result;
    if handle.Some? && newLen < |handle.value.content| then Effect(resized, resized)
    else Effect(None, resized)
  }

  /** A refused allocation while growing "ab" loses the caller's xtring in the
      code as written; the documented behaviour keeps it. */
  lemma ResizeFreeLosesHandleOnFailure()
    ensures ResizeFreeAsWritten(Some(Xtr(2, [0x61, 0x62])), 8, false) == Effect(None, None)
    ensures ResizeFree(Some(Xtr(2, [0x61, 0x62])), 8, false) == Effect(Some(Xtr(2, [0x61, 0x62])), None)
  {
  }

  /** `xtr_resize_free_double`: expands through the handle to twice the
      length. The source's wrap test `used * 2 < used` is exact for a
      doubling (`DoublingWrapIsExact`). */
  function ResizeFreeDouble(handle: Option<Xtring>, granted: bool): (e: Effect)
    ensures e.result.Some? <==> handle.Some? && granted && |handle.value.content| * 2 <= MAX_CAPACITY
    ensures e.result.Some? ==> e.updated == e.result
    ensures e.result.Some? ==> e.result.value == Xtr(|handle.value.content| * 2, handle.value.content)
    ensures e.result.None? ==> e.updated == handle
  {
    if handle.None? then Effect(handle, None)
    else if Wrap(|handle.value.content| * 2) < |handle.value.content| then Effect(handle, None)
    else
      DoublingWrapIsExact(|handle.value.content|);
      Construct.Expand(handle, |handle.value.content| * 2, granted)
  }

  /** A doubled `size_t` wraps exactly when the wrapped value drops below the
      original. */
  lemma DoublingWrapIsExact(u: Size)
    ensures Wrap(u * 2) < u <==> u * 2 > SIZE_MAX
    ensures u * 2 <= SIZE_MAX ==> Wrap(u * 2) == u * 2
  {
    if u * 2 > SIZE_MAX {
      assert Wrap(u * 2) == u * 2 - (SIZE_MAX + 1);
    }
  }

  /** `xtr_compress_free` as documented: without free space nothing happens
      and None is returned; otherwise the handle receives a copy with no free
      space. The compact copy is what `xtr_clone` allocates in the source
      (capacity = length). */
  function CompressFree(handle: Option<Xtring>, granted: bool): (e: Effect)
    ensures e.result.Some? <==> handle.Some? && |handle.value.content| < handle.value.capacity && granted
    ensures e.result.Some? ==> e.updated == e.result
    ensures e.result.Some? ==> e.result.value == Xtr(|handle.value.content|, handle.value.content)
    ensures e.result.None? ==> e.updated == handle
  {
    if handle.None? || handle.value.capacity - |handle.value.content| == 0 then Effect(handle, None)
    else
      var compact := Construct.CloneAsWritten(handle, granted);
      if compact.None? then Effect(handle, None) else Effect(compact, compact)
  }

  /** `xtr_compress_free` as written (lines 115-120): the original is freed
      and the copy only returned, so the handle ends up NULL. */
  function CompressFreeAsWritten(handle: Option<Xtring>, granted: bool): (e: Effect)
    ensures e.result == CompressFree(handle, granted).result
    ensures e.result.Some? ==> e.updated.None?
  {
    var r := CompressFree(handle, granted);
    if r.result.Some? then Effect(None, r.result) else r
  }

  /** Compressing "ab" with capacity 8 leaves a NULL handle in the code as
      written, and the compact copy in the documented behaviour. */
  lemma CompressFreeDropsResult()
    ensures CompressFreeAsWritten(Some(Xtr(8, [0x61, 0x62])), true).updated.None?
    ensures CompressFree(Some(Xtr(8, [0x61, 0x62])), true).updated == Some(Xtr(2, [0x61, 0x62]))
  {
  }

  /** `xtr_ensure` as intended: a copy whose capacity is at least `len`,
      never losing content. The source passes `MIN(used, len)` instead
      (`EnsureAsWritten`). */
  function Ensure(x: Option<Xtring>, len: Size, granted: bool): (r: Option<Xtring>)
    ensures r.Some? <==> x.Some? && granted && Max(|x.value.content|, len) <= MAX_CAPACITY
    ensures r.Some? ==> r.value.content == x.value.content
    ensures r.Some? ==> r.value.capacity >= len && r.value.capacity == Max(|x.value.content|, len)
  {
    if x.None? then None
    else Resize(x, Max(|x.value.content|, len), granted).result
  }

  /** `xtr_ensure` as written: resizes to the smaller of length and `len`. */
  function EnsureAsWritten(x: Option<Xtring>, len: Size, granted: bool): (r: Option<Xtring>)
    ensures r.Some? ==> x.Some? && r.value.content == x.value.content[..Min(|x.value.content|, len)]
  {
    if x.None? then None
    else Resize(x, Min(|x.value.content|, len), granted).result
  }

  /** Asking for room for one byte cuts "abc" down to "a" in the code as
      written; the intended call keeps "abc". */
  lemma EnsureTruncates()
    ensures EnsureAsWritten(Some(Xtr(3, [0x61, 0x62, 0x63])), 1, true) == Some(Xtr(3, [0x61]))
    ensures Ensure(Some(Xtr(3, [0x61, 0x62, 0x63])), 1, true) == Some(Xtr(3, [0x61, 0x62, 0x63]))
  {
    var abc: seq<bv8> := [0x61, 0x62, 0x63];
    assert abc[..1] == [0x61];
  }

  /** `xtr_ensure_free` as intended: `Ensure` through the handle. */
  function EnsureFree(handle: Option<Xtring>, len: Size, granted: bool): (e: Effect)
    ensures e.result == Ensure(handle, len, granted)
    ensures e.result.Some? ==> e.updated == e.result
    ensures e.result.None? ==> e.updated == handle
  {
    if handle.None? then Effect(handle, None)
    else ResizeFree(handle, Max(|handle.value.content|, len), granted)
  }
}
