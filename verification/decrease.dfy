/** Operations that shorten an xtring (src/xtr_decrease.c). The in-place ones
    return what the caller's xtring holds afterwards; `PopHead`/`PopTail` and
    `Truncate` also return a second xtring, so they yield an `Effect`. */
module Decrease {
  import opened Wrappers
  import opened Sizing
  import opened Bytes
  import opened Xtring
  import Raw
  import Construct

  /** `xtr_clear`: no content, same capacity; NULL stays NULL. */
  function Clear(x: Option<Xtring>): (r: Option<Xtring>)
    ensures r.Some? <==> x.Some?
    ensures r.Some? ==> r.value.content == [] && r.value.capacity == x.value.capacity
  {
    if x.None? then None else Some(Xtr(x.value.capacity, []))
  }

  /** `xtr_truncate_head`: drops the first `min(n, used)` bytes. */
  function TruncateHead(x: Option<Xtring>, n: Size): (r: Option<Xtring>)
    ensures r.Some? <==> x.Some?
    ensures r.Some? ==> r.value.capacity == x.value.capacity
    ensures r.Some? ==> |r.value.content| == |x.value.content| - Min(n, |x.value.content|)
    ensures r.Some? ==> x.value.content == x.value.content[..Min(n, |x.value.content|)] + r.value.content
  {
    if x.None? then None
    else
      var k := Min(n, |x.value.content|);
      assert x.value.content == x.value.content[..k] + x.value.content[k..];
      Some(Xtr(x.value.capacity, x.value.content[k..]))
  }

  /** `xtr_truncate_tail`: drops the last `min(n, used)` bytes. Line 69 of the
      source erases `n` bytes rather than the clamped count, which can run
      past the buffer; the erasure is not part of this model. */
  function TruncateTail(x: Option<Xtring>, n: Size): (r: Option<Xtring>)
    ensures r.Some? <==> x.Some?
    ensures r.Some? ==> r.value.capacity == x.value.capacity
    ensures r.Some? ==> |r.value.content| == |x.value.content| - Min(n, |x.value.content|)
    ensures r.Some? ==> x.value.content == r.value.content + x.value.content[|r.value.content|..]
  {
    if x.None? then None
    else
      var k := |x.value.content| - Min(n, |x.value.content|);
      assert x.value.content == x.value.content[..k] + x.value.content[k..];
      Some(Xtr(x.value.capacity, x.value.content[..k]))
  }

  /** Clearing is truncating everything, from either end. */
  lemma ClearIsTruncateAll(x: Option<Xtring>, n: Size)
    requires x.Some? ==> n >= |x.value.content|
    ensures Clear(x) == TruncateHead(x, n) == TruncateTail(x, n)
  {
  }

  /** Dropping `k` leading bytes in place the way the source does it:
      `memmove_zero_out(buffer, buffer + k, used - k)` followed by
      `set_used_and_terminator(used - k)` leaves a terminated struct holding
      the content from offset `k`. */
  lemma {:induction false} DropHeadInPlace(x: Xtring, k: nat, free: seq<bv8>)
    requires k <= |x.content| && |free| == x.capacity - |x.content| + TERMINATOR_LEN
    ensures var s := Store(x, free);
            var newLen := |x.content| - k;
            var moved := s.(buffer := Raw.MemmoveSecure(s.buffer, Some(0), Some(k), newLen));
            Raw.Terminated(Raw.SetUsedAndTerminator(moved, newLen))
            && Abs(Raw.SetUsedAndTerminator(moved, newLen)) == Xtr(x.capacity, x.content[k..])
  {
    var s := Store(x, free);
    var newLen := |x.content| - k;
    var mem := Raw.MemmoveSecure(s.buffer, Some(0), Some(k), newLen);
    assert s.buffer[..|x.content|] == x.content;
    assert mem[0..newLen] == s.buffer[k..k + newLen];
    var t := Raw.SetUsedAndTerminator(s.(buffer := mem), newLen);
    forall i | 0 <= i < newLen
      ensures t.buffer[i] == x.content[k + i]
    {
      assert t.buffer[i] == mem[i] == mem[0..newLen][i] == s.buffer[k..k + newLen][i];
      assert s.buffer[k + i] == s.buffer[..|x.content|][k + i];
    }
  }

  /** `TruncateHead` is what that in-place drop leaves behind. */
  lemma TruncateHeadInPlace(x: Xtring, n: Size, free: seq<bv8>)
    requires |free| == x.capacity - |x.content| + TERMINATOR_LEN
    ensures var s := Store(x, free);
            var k := Min(n, |x.content|);
            var moved := s.(buffer := Raw.MemmoveSecure(s.buffer, Some(0), Some(k), |x.content| - k));
            Some(Abs(Raw.SetUsedAndTerminator(moved, |x.content| - k))) == TruncateHead(Some(x), n)
  {
    DropHeadInPlace(x, Min(n, |x.content|), free);
  }

  /** `xtr_pop_head`: moves the first `min(n, used)` bytes into a new xtring
      with no free space. When that allocation fails, None is returned and
      the xtring is unchanged. */
  function PopHead(x: Option<Xtring>, n: Size, granted: bool): (e: Effect)
    ensures e.result.Some? <==> x.Some? && granted
    ensures e.result.None? ==> e.updated == x
    ensures e.result.Some? ==> e.updated.Some? && e.updated.value.capacity == x.value.capacity
    ensures e.result.Some? ==> e.result.value.content + e.updated.value.content == x.value.content
    ensures e.result.Some? ==> |e.result.value.content| == Min(n, |x.value.content|)
    ensures e.result.Some? ==> e.result.value.capacity == |e.result.value.content|
  {
    if x.None? then Effect(None, None)
    else
      var k := Min(n, |x.value.content|);
      var popped := Construct.FromBytes(Some(x.value.content[..k]), k, granted);
      if popped.None? then Effect(x, None)
      else Effect(TruncateHead(x, n), popped)
  }

  /** `xtr_pop_tail`: the same from the end. */
  function PopTail(x: Option<Xtring>, n: Size, granted: bool): (e: Effect)
    ensures e.result.Some? <==> x.Some? && granted
    ensures e.result.None? ==> e.updated == x
    ensures e.result.Some? ==> e.updated.Some? && e.updated.value.capacity == x.value.capacity
    ensures e.result.Some? ==> e.updated.value.content + e.result.value.content == x.value.content
    ensures e.result.Some? ==> |e.result.value.content| == Min(n, |x.value.content|)
    ensures e.result.Some? ==> e.result.value.capacity == |e.result.value.content|
  {
    if x.None? then Effect(None, None)
    else
      var k := Min(n, |x.value.content|);
      var newLen := |x.value.content| - k;
      var popped := Construct.FromBytes(Some(x.value.content[newLen..]), k, granted);
      if popped.None? then Effect(x, None)
      else Effect(TruncateTail(x, n), popped)
  }

  /** The header's example: popping 3 bytes off the head of "Hello world!"
      leaves "lo world!" and returns "Hel". */
  lemma PopHeadExample()
    ensures var hello: seq<bv8> := [0x48, 0x65, 0x6C, 0x6C, 0x6F, 0x20, 0x77, 0x6F, 0x72, 0x6C, 0x64, 0x21];
            var e := PopHead(Some(Xtr(12, hello)), 3, true);
            e.result == Some(Xtr(3, [0x48, 0x65, 0x6C])) && e.updated == Some(Xtr(12, hello[3..]))
  {
    var hello: seq<bv8> := [0x48, 0x65, 0x6C, 0x6C, 0x6F, 0x20, 0x77, 0x6F, 0x72, 0x6C, 0x64, 0x21];
    assert hello[..3] == [0x48, 0x65, 0x6C];
  }

  /** The bytes a trim removes: with no `chars` (NULL or "") the ASCII
      whitespace; otherwise the bytes of `chars` and also the zero byte, which
      `strchr` finds as the terminator of `chars`. */
  predicate InTrimSet(b: bv8, chars: Option<CString>) {
    if chars.None? || |chars.value| == 0 then IsSpace(b) else b == 0 || b in chars.value
  }

  /** The length left after removing the maximal trailing run of trim bytes. */
  function KeptBeforeTail(c: seq<bv8>, chars: Option<CString>): (k: nat)
    ensures k <= |c|
    ensures forall i :: k <= i < |c| ==> InTrimSet(c[i], chars)
    ensures k > 0 ==> !InTrimSet(c[k - 1], chars)
  {
    if |c| == 0 || !InTrimSet(c[|c| - 1], chars) then |c|
    else KeptBeforeTail(c[..|c| - 1], chars)
  }

  /** The length of the maximal leading run of trim bytes. */
  function TrimmedHeadLength(c: seq<bv8>, chars: Option<CString>): (k: nat)
    ensures k <= |c|
    ensures forall i :: 0 <= i < k ==> InTrimSet(c[i], chars)
    ensures k < |c| ==> !InTrimSet(c[k], chars)
  {
    if |c| == 0 || !InTrimSet(c[0], chars) then 0
    else 1 + TrimmedHeadLength(c[1..], chars)
  }

  /** `xtr_trim_tail` as documented: removes the maximal trailing run of trim
      bytes. The source stores `last` instead of `last + 1` as the new length
      (`TrimTailLengthAsWritten`). */
  function TrimTail(x: Option<Xtring>, chars: Option<CString>): (r: Option<Xtring>)
    ensures r.Some? <==> x.Some?
    ensures r.Some? ==> r.value.capacity == x.value.capacity
    ensures r.Some? ==> (|r.value.content| <= |x.value.content|
                         && r.value.content == x.value.content[..|r.value.content|])
    ensures r.Some? ==> forall i :: |r.value.content| <= i < |x.value.content| ==> InTrimSet(x.value.content[i], chars)
    ensures r.Some? && |r.value.content| > 0 ==> !InTrimSet(r.value.content[|r.value.content| - 1], chars)
  {
    if x.None? then None
    else Some(Xtr(x.value.capacity, x.value.content[..KeptBeforeTail(x.value.content, chars)]))
  }

  /** `xtr_trim_head`: removes the maximal leading run of trim bytes. */
  function TrimHead(x: Option<Xtring>, chars: Option<CString>): (r: Option<Xtring>)
    ensures r.Some? <==> x.Some?
    ensures r.Some? ==> r.value.capacity == x.value.capacity
    ensures r.Some? ==> (|r.value.content| <= |x.value.content|
                         && r.value.content == x.value.content[|x.value.content| - |r.value.content|..])
    ensures r.Some? ==> forall i :: 0 <= i < |x.value.content| - |r.value.content| ==> InTrimSet(x.value.content[i], chars)
    ensures r.Some? && |r.value.content| > 0 ==> !InTrimSet(r.value.content[0], chars)
  {
    if x.None? then None
    else Some(Xtr(x.value.capacity, x.value.content[TrimmedHeadLength(x.value.content, chars)..]))
  }

  /** `c[h..k]` is what is left of `c` once a run of trim bytes is cut off
      each end. */
  predicate TrimmedSlice(c: seq<bv8>, chars: Option<CString>, h: nat, k: nat) {
    h <= k <= |c|
    && (forall i :: 0 <= i < h ==> InTrimSet(c[i], chars))
    && (forall i :: k <= i < |c| ==> InTrimSet(c[i], chars))
  }

  /** `xtr_trim`: tail first, then head. The result is a slice of the content
      with only trim bytes cut off around it, and no byte of the trim set is
      left at either end: the maximal runs are removed. */
  function Trim(x: Option<Xtring>, chars: Option<CString>): (r: Option<Xtring>)
    ensures r.Some? <==> x.Some?
    ensures r.Some? ==> r.value.capacity == x.value.capacity
    ensures r.Some? ==> exists h: nat, k: nat ::
              TrimmedSlice(x.value.content, chars, h, k) && r.value.content == x.value.content[h..k]
    ensures r.Some? && |r.value.content| > 0 ==>
              !InTrimSet(r.value.content[0], chars) && !InTrimSet(r.value.content[|r.value.content| - 1], chars)
  {
    var t := TrimTail(x, chars);
    var r := TrimHead(t, chars);
    if x.None? then r
    else
      var c := x.value.content;
      var k := |t.value.content|;
      var h := k - |r.value.content|;
      assert t.value.content == c[..k];
      assert r.value.content == c[h..k];
      assert forall i :: 0 <= i < h ==> c[i] == t.value.content[i];
      assert TrimmedSlice(c, chars, h, k);
      r
  }

  /** An xtring that does not end in a trim byte is left alone by `TrimTail`. */
  lemma TrimTailFixed(x: Option<Xtring>, chars: Option<CString>)
    requires x.Some? && (|x.value.content| == 0 || !InTrimSet(x.value.content[|x.value.content| - 1], chars))
    ensures TrimTail(x, chars) == x
  {
    assert x.value.content[..|x.value.content|] == x.value.content;
  }

  /** An xtring that does not start with a trim byte is left alone by `TrimHead`. */
  lemma TrimHeadFixed(x: Option<Xtring>, chars: Option<CString>)
    requires x.Some? && (|x.value.content| == 0 || !InTrimSet(x.value.content[0], chars))
    ensures TrimHead(x, chars) == x
  {
    assert x.value.content[0..] == x.value.content;
  }

  /** Trimming twice trims nothing more. */
  lemma TrimIdempotent(x: Option<Xtring>, chars: Option<CString>)
    ensures Trim(Trim(x, chars), chars) == Trim(x, chars)
  {
    if x.Some? {
      var t := Trim(x, chars);
      TrimTailFixed(t, chars);
      TrimHeadFixed(t, chars);
    }
  }

  lemma TrimTailIdempotent(x: Option<Xtring>, chars: Option<CString>)
    ensures TrimTail(TrimTail(x, chars), chars) == TrimTail(x, chars)
  {
    if x.Some? {
      TrimTailFixed(TrimTail(x, chars), chars);
    }
  }

  lemma TrimHeadIdempotent(x: Option<Xtring>, chars: Option<CString>)
    ensures TrimHead(TrimHead(x, chars), chars) == TrimHead(x, chars)
  {
    if x.Some? {
      TrimHeadFixed(TrimHead(x, chars), chars);
    }
  }

  /** The new length `xtr_trim_tail` stores, as written: the index `last` of
      the last byte kept, which wraps to SIZE_MAX when every byte is trimmed.
      An empty xtring is left as it is. */
  function TrimTailLengthAsWritten(x: Xtring, chars: Option<CString>): (used: Size)
    ensures |x.content| > 0 && KeptBeforeTail(x.content, chars) > 0 ==> used == KeptBeforeTail(x.content, chars) - 1
    ensures |x.content| > 0 && KeptBeforeTail(x.content, chars) == 0 ==> used == SIZE_MAX
  {
    if |x.content| == 0 then 0
    else Wrap(KeptBeforeTail(x.content, chars) + SIZE_MAX)
  }

  /** The header's example: trimming ".,!d" off "Hello world!" gives
      "Hello worl"; the code as written keeps one byte fewer, and cuts a byte
      off "abc" even though there is nothing to trim. */
  lemma TrimTailDropsOneMore()
    ensures var hello: seq<bv8> := [0x48, 0x65, 0x6C, 0x6C, 0x6F, 0x20, 0x77, 0x6F, 0x72, 0x6C, 0x64, 0x21];
            var chars: CString := [0x2E, 0x2C, 0x21, 0x64];
            TrimTail(Some(Xtr(12, hello)), Some(chars)) == Some(Xtr(12, hello[..10]))
            && TrimTailLengthAsWritten(Xtr(12, hello), Some(chars)) == 9
    ensures TrimTailLengthAsWritten(Xtr(3, [0x61, 0x62, 0x63]), None) == 2
    ensures TrimTail(Some(Xtr(3, [0x61, 0x62, 0x63])), None) == Some(Xtr(3, [0x61, 0x62, 0x63]))
  {
    var hello: seq<bv8> := [0x48, 0x65, 0x6C, 0x6C, 0x6F, 0x20, 0x77, 0x6F, 0x72, 0x6C, 0x64, 0x21];
    var chars: CString := [0x2E, 0x2C, 0x21, 0x64];
    assert hello[..11] == hello[..12][..11];
    assert hello[..12] == hello;
    assert KeptBeforeTail(hello[..10], Some(chars)) == 10;
    assert KeptBeforeTail(hello[..11], Some(chars)) == 10;
    assert KeptBeforeTail(hello, Some(chars)) == 10;
    var abc: seq<bv8> := [0x61, 0x62, 0x63];
    assert KeptBeforeTail(abc, None) == 3;
    TrimTailFixed(Some(Xtr(3, abc)), None);
  }

  /** `xtr_truncate_prefix`: removes one leading copy of `prefix` when the
      content starts with it; otherwise (NULL or empty xtring, NULL or longer
      or absent prefix) nothing changes. */
  function TruncatePrefix(x: Option<Xtring>, prefix: Option<CString>): (r: Option<Xtring>)
    ensures r.Some? <==> x.Some?
    ensures r.Some? ==> r.value.capacity == x.value.capacity
    ensures x.Some? && prefix.Some? && 0 < |x.value.content| && |prefix.value| <= |x.value.content|
            && x.value.content[..|prefix.value|] == prefix.value ==>
              prefix.value + r.value.content == x.value.content
    ensures (x.None? || prefix.None? || |x.value.content| == 0 || |prefix.value| > |x.value.content|
             || x.value.content[..|prefix.value|] != prefix.value) ==> r == x
  {
    if x.None? || |x.value.content| == 0 || prefix.None? then x
    else if |prefix.value| > |x.value.content| then x
    else if x.value.content[..|prefix.value|] == prefix.value then TruncateHead(x, |prefix.value|)
    else x
  }

  /** `xtr_truncate_suffix`: removes one trailing copy of `suffix` when the
      content ends with it; otherwise nothing changes. */
  function TruncateSuffix(x: Option<Xtring>, suffix: Option<CString>): (r: Option<Xtring>)
    ensures r.Some? <==> x.Some?
    ensures r.Some? ==> r.value.capacity == x.value.capacity
    ensures x.Some? && suffix.Some? && 0 < |x.value.content| && |suffix.value| <= |x.value.content|
            && x.value.content[|x.value.content| - |suffix.value|..] == suffix.value ==>
              r.value.content + suffix.value == x.value.content
    ensures (x.None? || suffix.None? || |x.value.content| == 0 || |suffix.value| > |x.value.content|
             || x.value.content[|x.value.content| - |suffix.value|..] != suffix.value) ==> r == x
  {
    if x.None? || |x.value.content| == 0 || suffix.None? then x
    else if |suffix.value| > |x.value.content| then x
    else if x.value.content[|x.value.content| - |suffix.value|..] == suffix.value then TruncateTail(x, |suffix.value|)
    else x
  }

  /** `xtr_truncated`: a new xtring holding the first `min(atMost, used)`
      bytes, with no free space. */
  function Truncated(x: Option<Xtring>, atMost: Size, granted: bool): (r: Option<Xtring>)
    ensures r.Some? <==> x.Some? && granted
    ensures r.Some? ==> r.value.capacity == |r.value.content| == Min(atMost, |x.value.content|)
    ensures r.Some? ==> r.value.content == x.value.content[..|r.value.content|]
  {
    if x.None? then None
    else
      var k := Min(atMost, |x.value.content|);
      match NewEnsure(k, granted)
      case None => None
      case Some(shorter) => Some(Xtr(shorter.capacity, x.value.content[..k]))
  }

  /** The copy holds what truncating the tail in place would leave. */
  lemma TruncatedIsTruncateTail(x: Option<Xtring>, atMost: Size)
    requires x.Some?
    ensures Truncated(x, atMost, true).value.content
            == TruncateTail(x, |x.value.content| - Min(atMost, |x.value.content|)).value.content
  {
  }

  /** `xtr_truncate`: `Truncated` swapped into the handle; on failure the handle
      is untouched. */
  function Truncate(handle: Option<Xtring>, maxLen: Size, granted: bool): (e: Effect)
    ensures e.result == Truncated(handle, maxLen, granted)
    ensures e.result.Some? ==> e.updated == e.result
    ensures e.result.None? ==> e.updated == handle
  {
    var smaller := Truncated(handle, maxLen, granted);
    if smaller.None? then Effect(handle, None) else Effect(smaller, smaller)
  }
}
