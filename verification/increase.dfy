/** Operations that lengthen or combine xtrings (src/xtr_increase.c) and the
    documented push/extend/concat/repeated contracts of inc/xtr.h. */
module Increase {
  import opened Wrappers
  import opened Sizing
  import opened Bytes
  import opened Xtring
  import Resize

  /** For a sum of two `size_t` values the source's wrap test (the wrapped sum
      is below one of the operands) is exact. */
  lemma SumWrapIsExact(a: Size, b: Size)
    ensures (Wrap(a + b) < a || Wrap(a + b) < b) <==> a + b > SIZE_MAX
    ensures a + b <= SIZE_MAX ==> Wrap(a + b) == a + b
  {
    if a + b > SIZE_MAX {
      assert Wrap(a + b) == a + b - (SIZE_MAX + 1);
    }
  }

  /** `xtr_merge`: a new xtring holding `a` then `b`, with no free space. None
      for a NULL input, a length that does not fit, or a refused allocation. */
  function Merge(a: Option<Xtring>, b: Option<Xtring>, granted: bool): (r: Option<Xtring>)
    ensures r.Some? <==> a.Some? && b.Some? && granted && |a.value.content| + |b.value.content| <= MAX_CAPACITY
    ensures r.Some? ==> r.value.content == a.value.content + b.value.content
    ensures r.Some? ==> r.value.capacity == |a.value.content| + |b.value.content|
  {
    if a.None? || b.None? then None
    else
      var la: Size := |a.value.content|;
      var lb: Size := |b.value.content|;
      SumWrapIsExact(la, lb);
      if Wrap(la + lb) < la || Wrap(la + lb) < lb then None
      else
        match NewEnsure(la + lb, granted)
        case None => None
        case Some(m) => Some(Xtr(m.capacity, a.value.content + b.value.content))
  }

  /** `xtr_concat` (inc/xtr.h): the merge of `a` and `b`, also when `b` is `a`. */
  function Concat(a: Option<Xtring>, b: Option<Xtring>, granted: bool): (r: Option<Xtring>)
    ensures r.Some? <==> a.Some? && b.Some? && granted && |a.value.content| + |b.value.content| <= MAX_CAPACITY
    ensures r.Some? ==> r.value == Xtr(|a.value.content| + |b.value.content|, a.value.content + b.value.content)
  {
    Merge(a, b, granted)
  }

  /** Concatenating an xtring with itself doubles it. */
  lemma ConcatSelf(a: Option<Xtring>)
    requires a.Some? && |a.value.content| * 2 <= MAX_CAPACITY
    ensures Concat(a, a, true).Some?
    ensures Concat(a, a, true).value.content == Repeat(a.value.content, 2)
  {
    assert Repeat(a.value.content, 1) == a.value.content + [];
  }

  /** `xtr_repeat_raw`: `reps` copies of `part` with no free space. The source
      tests `total < part_len` for the wrap of `reps * part_len`, the test
      `Construct.RepeatGuardAsWritten` shows incomplete and which also
      refuses zero repetitions (`RepeatRawAsWritten`); the model rejects
      every product above SIZE_MAX and gives an empty xtring for zero
      repetitions. */
  function RepeatRaw(part: seq<bv8>, reps: Size, granted: bool): (r: Option<Xtring>)
    requires |part| <= SIZE_MAX
    ensures r.Some? <==> granted && reps * |part| <= MAX_CAPACITY
    ensures r.Some? ==> r.value == Xtr(reps * |part|, Repeat(part, reps))
  {
    if reps * |part| > SIZE_MAX then None
    else
      match NewEnsure(reps * |part|, granted)
      case None => None
      case Some(n) => Some(Xtr(n.capacity, Repeat(part, reps)))
  }

  /** `xtr_new_repeat`: a C string repeated; NULL gives None. */
  function NewRepeat(str: Option<CString>, reps: Size, granted: bool): (r: Option<Xtring>)
    ensures r.Some? <==> str.Some? && granted && reps * |str.value| <= MAX_CAPACITY
    ensures r.Some? ==> r.value == Xtr(reps * |str.value|, Repeat(str.value, reps))
  {
    if str.None? then None else RepeatRaw(str.value, reps, granted)
  }

  /** `xtr_repeat` (`xtr_repeated` in inc/xtr.h): an xtring's content
      repeated; NULL gives None, zero repetitions an empty xtring. */
  function Repeated(x: Option<Xtring>, reps: Size, granted: bool): (r: Option<Xtring>)
    ensures r.Some? <==> x.Some? && granted && reps * |x.value.content| <= MAX_CAPACITY
    ensures r.Some? ==> r.value == Xtr(reps * |x.value.content|, Repeat(x.value.content, reps))
  {
    if x.None? then None else RepeatRaw(x.value.content, reps, granted)
  }

  /** What `xtr_repeat_raw` as written leaves behind: NULL, a well-formed
      xtring, or an allocation of `buffer` bytes into which the copy loop
      writes `written` bytes. */
  datatype RepeatOutcome = Null | Made(x: Xtring) | Overrun(buffer: Size, written: nat)

  /** `xtr_repeat_raw` as written. The wrap test `total < part_len` refuses
      zero repetitions of a non-empty part, whose product 0 is below the
      part's length. It also lets through some products that wrap past
      SIZE_MAX; the xtring is then allocated for the wrapped length and the
      copy loop writes all `reps` copies into it. */
  function RepeatRawAsWritten(part: seq<bv8>, reps: Size, granted: bool): (r: RepeatOutcome)
    requires |part| <= SIZE_MAX
    ensures reps == 0 && |part| > 0 ==> r.Null?
    ensures r.Made? ==> RepeatRaw(part, reps, granted) == Some(r.x)
    ensures r.Overrun? ==> reps * |part| > SIZE_MAX && r.buffer < r.written == reps * |part|
  {
    var total := Wrap(reps * |part|);
    if total < |part| then Null
    else
      match NewEnsure(total, granted)
      case None => Null
      case Some(n) =>
        if reps * |part| <= SIZE_MAX then Made(Xtr(n.capacity, Repeat(part, reps)))
        else Overrun(total, reps * |part|)
  }

  /** Zero repetitions of any non-empty part: NULL as written, an empty
      xtring as documented for `xtr_repeated`. */
  lemma RepeatZeroRefusedAsWritten(part: seq<bv8>)
    requires 0 < |part| <= MAX_CAPACITY
    ensures forall g :: RepeatRawAsWritten(part, 0, g).Null?
    ensures RepeatRaw(part, 0, true) == Some(Xtr(0, []))
    ensures Repeated(Some(Xtr(|part|, part)), 0, true) == Some(Xtr(0, []))
  {
  }

  /** "ab" repeated 0 times. */
  lemma RepeatZeroExample()
    ensures RepeatRawAsWritten([0x61, 0x62], 0, true) == Null
    ensures Repeated(Some(Xtr(2, [0x61, 0x62])), 0, true) == Some(Xtr(0, []))
  {
    RepeatZeroRefusedAsWritten([0x61, 0x62]);
  }

  /** With at least one repetition and no wrap, the source's test passes and
      the code as written agrees with the model. */
  lemma RepeatRawAsWrittenAgrees(part: seq<bv8>, reps: Size, granted: bool)
    requires |part| <= SIZE_MAX && reps > 0 && reps * |part| <= SIZE_MAX
    ensures RepeatRaw(part, reps, granted).None? ==> RepeatRawAsWritten(part, reps, granted).Null?
    ensures RepeatRaw(part, reps, granted).Some? ==> RepeatRawAsWritten(part, reps, granted) == Made(RepeatRaw(part, reps, granted).value)
  {
    var t := reps * |part|;
    AtLeastOnce(reps, |part|);
    assert Wrap(t) == t;
    match NewEnsure(t, granted)
    case None =>
      assert RepeatRaw(part, reps, granted) == None;
    case Some(n) =>
      assert RepeatRaw(part, reps, granted) == Some(Xtr(n.capacity, Repeat(part, reps)));
  }

  /** Arithmetic helper: one or more copies are at least as long as one. */
  lemma AtLeastOnce(reps: nat, len: nat)
    requires reps > 0
    ensures reps * len >= len
  {
    assert reps * len == len + (reps - 1) * len;
  }

  /** A 2^33-byte part repeated 2^32 + 1 times: the product wraps to exactly
      2^33, passes the test, and the copy loop writes 2^32 + 1 copies into a
      buffer sized for two; the model refuses the product. */
  lemma RepeatWrapOverrunsAsWritten(part: seq<bv8>)
    requires |part| == 0x2_0000_0000
    ensures RepeatRawAsWritten(part, 0x1_0000_0001, true) == Overrun(0x2_0000_0000, 0x1_0000_0001 * 0x2_0000_0000)
    ensures forall g :: RepeatRaw(part, 0x1_0000_0001, g).None?
  {
    assert Wrap(0x1_0000_0001 * 0x2_0000_0000) == 0x2_0000_0000;
  }

  /** Repeating twice is concatenating with itself. */
  lemma RepeatedTwiceIsConcat(x: Option<Xtring>)
    requires x.Some? && |x.value.content| * 2 <= MAX_CAPACITY
    ensures Repeated(x, 2, true) == Concat(x, x, true)
  {
    ConcatSelf(x);
  }

  /** `xtr_extend_raw` as intended: `reps` copies of `part` after the existing
      content, through the handle (see `Resize.ResizeFree`). When the length
      does not fit or the allocation is refused, the handle is unchanged. The
      source sizes the result as `(used + len) * reps` and copies from offset
      0 (`ExtendRawAsWritten`). */
  function ExtendRaw(handle: Option<Xtring>, part: seq<bv8>, reps: Size, granted: bool): (r: Option<Xtring>)
    requires |part| <= SIZE_MAX
    ensures handle.Some? && granted && |handle.value.content| + reps * |part| <= MAX_CAPACITY ==>
              r == Some(Xtr(|handle.value.content| + reps * |part|, handle.value.content + Repeat(part, reps)))
    ensures !(handle.Some? && granted && |handle.value.content| + reps * |part| <= MAX_CAPACITY) ==> r == handle
  {
    if handle.None? then handle
    else
      var used := |handle.value.content|;
      if reps * |part| > SIZE_MAX || used + reps * |part| > SIZE_MAX then handle
      else
        var total: Size := used + reps * |part|;
        var resized := Resize.ResizeFree(handle, total, granted);
        if resized.result.None? then handle
        else Some(Xtr(resized.result.value.capacity, resized.result.value.content + Repeat(part, reps)))
  }

  /** The content `xtr_extend_raw` leaves, as written, when its length product
      does not wrap: the buffer is grown to `(used + len) * reps` bytes (the
      bytes past the old content are whatever the allocation held, `junk`)
      and the copies are written from offset 0. None when the source returns
      early. */
  function ExtendRawAsWritten(base: Xtring, part: seq<bv8>, reps: Size, junk: seq<bv8>): (r: Option<seq<bv8>>)
    requires (|base.content| + |part|) * reps <= SIZE_MAX
    requires |junk| >= (|base.content| + |part|) * reps
    ensures r.Some? ==> |r.value| == (|base.content| + |part|) * reps
    ensures r.Some? ==> r.value[..reps * |part|] == Repeat(part, reps)
  {
    var total := (|base.content| + |part|) * reps;
    if total < |base.content| || total < |part| || total > MAX_CAPACITY then None
    else
      var buffer := base.content + junk[|base.content|..total];
      Some(Repeat(part, reps) + buffer[reps * |part|..])
  }

  /** Extending "ab" by "c" once: as written the result starts "cb", the
      intended result is "abc". */
  lemma ExtendRawOverwrites()
    ensures ExtendRawAsWritten(Xtr(2, [0x61, 0x62]), [0x63], 1, [0, 0, 0]) == Some([0x63, 0x62, 0])
    ensures ExtendRaw(Some(Xtr(2, [0x61, 0x62])), [0x63], 1, true) == Some(Xtr(3, [0x61, 0x62, 0x63]))
  {
    var ab: seq<bv8> := [0x61, 0x62];
    var c: seq<bv8> := [0x63];
    var junk: seq<bv8> := [0, 0, 0];
    assert Repeat(c, 1) == c;
    assert junk[2..3] == [0];
    assert (ab + junk[2..3])[1..] == [0x62, 0];
    assert ExtendRawAsWritten(Xtr(2, ab), c, 1, junk) == Some(Repeat(c, 1) + (ab + junk[2..3])[1..]);
    assert Repeat(c, 1) + [0x62, 0] == [0x63, 0x62, 0];
    assert ab + Repeat(c, 1) == [0x61, 0x62, 0x63];
  }

  /** `xtr_extend`: the content of `ext` appended; a NULL handle or extension
      changes nothing. */
  function Extend(handle: Option<Xtring>, ext: Option<Xtring>, granted: bool): (r: Option<Xtring>)
    ensures handle.Some? && ext.Some? && granted && |handle.value.content| + |ext.value.content| <= MAX_CAPACITY ==>
              r == Some(Xtr(|handle.value.content| + |ext.value.content|, handle.value.content + ext.value.content))
    ensures !(handle.Some? && ext.Some? && granted && |handle.value.content| + |ext.value.content| <= MAX_CAPACITY) ==>
              r == handle
  {
    if handle.None? || ext.None? then handle
    else
      assert Repeat(ext.value.content, 1) == ext.value.content + [] == ext.value.content;
      assert 1 * |ext.value.content| == |ext.value.content|;
      ExtendRaw(handle, ext.value.content, 1, granted)
  }

  /** `xtr_extend_many`: `reps` copies of `ext` appended. */
  function ExtendMany(handle: Option<Xtring>, ext: Option<Xtring>, reps: Size, granted: bool): (r: Option<Xtring>)
    ensures handle.Some? && ext.Some? && granted && |handle.value.content| + reps * |ext.value.content| <= MAX_CAPACITY ==>
              r == Some(Xtr(|handle.value.content| + reps * |ext.value.content|,
                            handle.value.content + Repeat(ext.value.content, reps)))
    ensures !(handle.Some? && ext.Some? && granted && |handle.value.content| + reps * |ext.value.content| <= MAX_CAPACITY) ==>
              r == handle
  {
    if handle.None? || ext.None? then handle else ExtendRaw(handle, ext.value.content, reps, granted)
  }

  /** `xtr_extend_from`: a C string appended; NULL changes nothing. */
  function ExtendFrom(handle: Option<Xtring>, ext: Option<CString>, granted: bool): (r: Option<Xtring>)
    ensures handle.Some? && ext.Some? && granted && |handle.value.content| + |ext.value| <= MAX_CAPACITY ==>
              r == Some(Xtr(|handle.value.content| + |ext.value|, handle.value.content + ext.value))
    ensures !(handle.Some? && ext.Some? && granted && |handle.value.content| + |ext.value| <= MAX_CAPACITY) ==>
              r == handle
  {
    if handle.None? || ext.None? then handle
    else
      assert Repeat(ext.value, 1) == ext.value + [] == ext.value;
      assert 1 * |ext.value| == |ext.value|;
      ExtendRaw(handle, ext.value, 1, granted)
  }

  /** `xtr_extend_from_many`: `reps` copies of a C string appended. */
  function ExtendFromMany(handle: Option<Xtring>, ext: Option<CString>, reps: Size, granted: bool): (r: Option<Xtring>)
    ensures handle.Some? && ext.Some? && granted && |handle.value.content| + reps * |ext.value| <= MAX_CAPACITY ==>
              r == Some(Xtr(|handle.value.content| + reps * |ext.value|, handle.value.content + Repeat(ext.value, reps)))
    ensures !(handle.Some? && ext.Some? && granted && |handle.value.content| + reps * |ext.value| <= MAX_CAPACITY) ==>
              r == handle
  {
    if handle.None? || ext.None? then handle else ExtendRaw(handle, ext.value, reps, granted)
  }

  /** `xtr_append`: one byte appended. */
  function Append(handle: Option<Xtring>, c: bv8, granted: bool): (r: Option<Xtring>)
    ensures handle.Some? && granted && |handle.value.content| + 1 <= MAX_CAPACITY ==>
              r == Some(Xtr(|handle.value.content| + 1, handle.value.content + [c]))
    ensures !(handle.Some? && granted && |handle.value.content| + 1 <= MAX_CAPACITY) ==> r == handle
  {
    assert Fill(c, 1) == [c];
    AppendMany(handle, c, 1, granted)
  }

  /** `xtr_append_many`: `reps` copies of one byte appended. */
  function AppendMany(handle: Option<Xtring>, c: bv8, reps: Size, granted: bool): (r: Option<Xtring>)
    ensures handle.Some? && granted && |handle.value.content| + reps <= MAX_CAPACITY ==>
              r == Some(Xtr(|handle.value.content| + reps, handle.value.content + Fill(c, reps)))
    ensures !(handle.Some? && granted && |handle.value.content| + reps <= MAX_CAPACITY) ==> r == handle
  {
    if handle.None? then handle
    else
      RepeatSingleIsFill(c, reps);
      ExtendRaw(handle, [c], reps, granted)
  }

  /** Extending through the handle and concatenating into a new xtring
      succeed together and give the same xtring. */
  lemma ExtendAgreesWithConcat(handle: Option<Xtring>, ext: Option<Xtring>, granted: bool)
    requires handle.Some?
    ensures Concat(handle, ext, granted).Some? ==> Extend(handle, ext, granted) == Concat(handle, ext, granted)
    ensures Concat(handle, ext, granted).None? ==> Extend(handle, ext, granted) == handle
  {
  }

  /** What a push leaves in the xtring and how many bytes it added. */
  datatype Pushed = Pushed(updated: Option<Xtring>, count: Size)

  /** `xtr_push_head` (inc/xtr.h): all or nothing. With room for the whole
      extension it is prepended in place and its length returned; otherwise,
      or on a NULL input, nothing changes and 0 is returned. */
  function PushHead(x: Option<Xtring>, ext: Option<Xtring>): (p: Pushed)
    ensures x.Some? && ext.Some? && |ext.value.content| <= x.value.capacity - |x.value.content| ==>
              p.count == |ext.value.content|
              && p.updated == Some(Xtr(x.value.capacity, ext.value.content + x.value.content))
    ensures !(x.Some? && ext.Some? && |ext.value.content| <= x.value.capacity - |x.value.content|) ==>
              p == Pushed(x, 0)
  {
    if x.None? || ext.None? || |ext.value.content| > x.value.capacity - |x.value.content| then Pushed(x, 0)
    else Pushed(Some(Xtr(x.value.capacity, ext.value.content + x.value.content)), |ext.value.content|)
  }

  /** `xtr_push_tail` (inc/xtr.h): the same at the end. */
  function PushTail(x: Option<Xtring>, ext: Option<Xtring>): (p: Pushed)
    ensures x.Some? && ext.Some? && |ext.value.content| <= x.value.capacity - |x.value.content| ==>
              p.count == |ext.value.content|
              && p.updated == Some(Xtr(x.value.capacity, x.value.content + ext.value.content))
    ensures !(x.Some? && ext.Some? && |ext.value.content| <= x.value.capacity - |x.value.content|) ==>
              p == Pushed(x, 0)
  {
    if x.None? || ext.None? || |ext.value.content| > x.value.capacity - |x.value.content| then Pushed(x, 0)
    else Pushed(Some(Xtr(x.value.capacity, x.value.content + ext.value.content)), |ext.value.content|)
  }

  /** A push adds exactly the bytes it reports. */
  lemma PushCountsBytes(x: Option<Xtring>, ext: Option<Xtring>)
    requires x.Some?
    ensures |PushHead(x, ext).updated.value.content| == |x.value.content| + PushHead(x, ext).count
    ensures |PushTail(x, ext).updated.value.content| == |x.value.content| + PushTail(x, ext).count
  {
  }

  /** `xtr_extend_head` (inc/xtr.h): `ext + content`, in place when it fits,
      otherwise in a merged copy swapped into the handle. On failure (NULL
      input, refused allocation, length too large) None is returned and the
      handle is untouched. */
  function ExtendHead(handle: Option<Xtring>, ext: Option<Xtring>, granted: bool): (e: Effect)
    ensures e.result.Some? <==> (handle.Some? && ext.Some?
              && (|ext.value.content| <= handle.value.capacity - |handle.value.content|
                  || (granted && |ext.value.content| + |handle.value.content| <= MAX_CAPACITY)))
    ensures e.result.Some? ==> e.updated == e.result
    ensures e.result.Some? ==> e.result.value.content == ext.value.content + handle.value.content
    ensures e.result.None? ==> e.updated == handle
  {
    if handle.None? || ext.None? then Effect(handle, None)
    else if |ext.value.content| <= handle.value.capacity - |handle.value.content| then
      var pushed := PushHead(handle, ext).updated;
      Effect(pushed, pushed)
    else
      var merged := Merge(ext, handle, granted);
      if merged.None? then Effect(handle, None) else Effect(merged, merged)
  }

  /** `xtr_extend_tail` (inc/xtr.h): `content + ext`, likewise. */
  function ExtendTail(handle: Option<Xtring>, ext: Option<Xtring>, granted: bool): (e: Effect)
    ensures e.result.Some? <==> (handle.Some? && ext.Some?
              && (|ext.value.content| <= handle.value.capacity - |handle.value.content|
                  || (granted && |handle.value.content| + |ext.value.content| <= MAX_CAPACITY)))
    ensures e.result.Some? ==> e.updated == e.result
    ensures e.result.Some? ==> e.result.value.content == handle.value.content + ext.value.content
    ensures e.result.None? ==> e.updated == handle
  {
    if handle.None? || ext.None? then Effect(handle, None)
    else if |ext.value.content| <= handle.value.capacity - |handle.value.content| then
      var pushed := PushTail(handle, ext).updated;
      Effect(pushed, pushed)
    else
      var merged := Merge(handle, ext, granted);
      if merged.None? then Effect(handle, None) else Effect(merged, merged)
  }
}
