/** Constructors (src/xtr_new.c, src/xtr_from.c, src/xtr_clone.c). They all
    reduce to one rule: `reps` back-to-back copies of a `len`-byte source in a
    buffer of capacity `max(reps * len, at_least)`. */
module Construct {
  import opened Wrappers
  import opened Sizing
  import opened Bytes
  import opened Xtring

  /** `xtr_from_bytes_repeat_capac`. `src` None is a NULL array of `len` bytes.
      The source detects the wrap of `reps * len` with `total_len < array_len`,
      which misses some wraps (see `RepeatGuardAsWritten`); the model rejects
      every product above SIZE_MAX. */
  function FromBytesRepeatCapac(src: Option<seq<bv8>>, len: Size, reps: Size, atLeast: Size, granted: bool): (r: Option<Xtring>)
    requires src.Some? ==> |src.value| == len
    ensures r.Some? <==> granted && (src.Some? || len == 0) && Max(reps * len, atLeast) <= MAX_CAPACITY
    ensures r.Some? ==> r.value.capacity == Max(reps * len, atLeast)
    ensures r.Some? ==> r.value.content == Repeat(OrEmpty(src), reps)
  {
    if src.None? && len != 0 then None
    else if reps == 0 then NewEnsure(atLeast, granted)
    else if reps * len > SIZE_MAX then None
    else
      match NewEnsure(Max(reps * len, atLeast), granted)
      case None => None
      case Some(x) => if src.None? then Some(x) else Some(Xtr(x.capacity, Repeat(src.value, reps)))
  }

  /** The source's overflow test for `reps * len`: passes when the wrapped
      product is not below `len`. */
  predicate RepeatGuardAsWritten(len: Size, reps: Size) {
    !(Wrap(reps * len) < len)
  }

  /** A product that wraps past SIZE_MAX and still passes the source's test:
      2^33 bytes repeated 2^32 + 1 times wraps to exactly 2^33. */
  lemma RepeatGuardMissesWrap()
    ensures RepeatGuardAsWritten(0x2_0000_0000, 0x1_0000_0001)
    ensures 0x1_0000_0001 * 0x2_0000_0000 > SIZE_MAX
    ensures FromBytesRepeatCapac(None, 0, 0x1_0000_0001, 0, true).Some?
    ensures forall g :: FromBytesRepeatCapac(Some(Fill(0, 0x2_0000_0000)), 0x2_0000_0000, 0x1_0000_0001, 0, g).None?
  {
    assert Wrap(0x1_0000_0001 * 0x2_0000_0000) == 0x2_0000_0000;
  }

  function FromBytes(src: Option<seq<bv8>>, len: Size, granted: bool): (r: Option<Xtring>)
    requires src.Some? ==> |src.value| == len
    ensures r.Some? <==> granted && (src.Some? || len == 0) && len <= MAX_CAPACITY
    ensures r.Some? ==> r.value == Xtr(len, OrEmpty(src))
  {
    FromBytesRepeatCapac(src, len, 1, 0, granted)
  }

  function FromBytesCapac(src: Option<seq<bv8>>, len: Size, atLeast: Size, granted: bool): (r: Option<Xtring>)
    requires src.Some? ==> |src.value| == len
    ensures r.Some? <==> granted && (src.Some? || len == 0) && Max(len, atLeast) <= MAX_CAPACITY
    ensures r.Some? ==> r.value == Xtr(Max(len, atLeast), OrEmpty(src))
  {
    FromBytesRepeatCapac(src, len, 1, atLeast, granted)
  }

  function FromBytesRepeat(src: Option<seq<bv8>>, len: Size, reps: Size, granted: bool): (r: Option<Xtring>)
    requires src.Some? ==> |src.value| == len
    ensures r.Some? <==> granted && (src.Some? || len == 0) && reps * len <= MAX_CAPACITY
    ensures r.Some? ==> r.value == Xtr(reps * len, Repeat(OrEmpty(src), reps))
  {
    FromBytesRepeatCapac(src, len, reps, 0, granted)
  }

  /** `xtr_from_str_repeat_capac`: a NULL string is a zero-length source. */
  function FromStrRepeatCapac(str: Option<CString>, reps: Size, atLeast: Size, granted: bool): (r: Option<Xtring>)
    ensures r.Some? <==> granted && Max(reps * |OrEmpty(str)|, atLeast) <= MAX_CAPACITY
    ensures r.Some? ==> r.value.capacity == Max(reps * |OrEmpty(str)|, atLeast)
    ensures r.Some? ==> r.value.content == Repeat(OrEmpty(str), reps)
  {
    var len: Size := if str.Some? then |str.value| else 0;
    FromBytesRepeatCapac(str, len, reps, atLeast, granted)
  }

  function FromStr(str: Option<CString>, granted: bool): (r: Option<Xtring>)
    ensures r.Some? <==> granted && |OrEmpty(str)| <= MAX_CAPACITY
    ensures r.Some? ==> r.value == Xtr(|OrEmpty(str)|, OrEmpty(str))
  {
    FromStrRepeatCapac(str, 1, 0, granted)
  }

  function FromStrCapac(str: Option<CString>, atLeast: Size, granted: bool): (r: Option<Xtring>)
    ensures r.Some? <==> granted && Max(|OrEmpty(str)|, atLeast) <= MAX_CAPACITY
    ensures r.Some? ==> r.value == Xtr(Max(|OrEmpty(str)|, atLeast), OrEmpty(str))
  {
    FromStrRepeatCapac(str, 1, atLeast, granted)
  }

  function FromStrRepeat(str: Option<CString>, reps: Size, granted: bool): (r: Option<Xtring>)
    ensures r.Some? <==> granted && reps * |OrEmpty(str)| <= MAX_CAPACITY
    ensures r.Some? ==> r.value == Xtr(reps * |OrEmpty(str)|, Repeat(OrEmpty(str), reps))
  {
    FromStrRepeatCapac(str, reps, 0, granted)
  }

  /** `xtr_from_byte_repeat_capac`: `len` copies of `b`. */
  function FromByteRepeatCapac(b: bv8, len: Size, atLeast: Size, granted: bool): (r: Option<Xtring>)
    ensures r.Some? <==> granted && Max(len, atLeast) <= MAX_CAPACITY
    ensures r.Some? ==> r.value.capacity == Max(len, atLeast) && |r.value.content| == len
    ensures r.Some? ==> forall i :: 0 <= i < len ==> r.value.content[i] == b
  {
    match NewEnsure(Max(len, atLeast), granted)
    case None => None
    case Some(x) => Some(Xtr(x.capacity, Fill(b, len)))
  }

  function FromByte(b: bv8, granted: bool): (r: Option<Xtring>)
    ensures r.Some? <==> granted
    ensures r.Some? ==> r.value == Xtr(1, [b])
  {
    FromByteRepeatCapac(b, 1, 0, granted)
  }

  function FromByteRepeat(b: bv8, len: Size, granted: bool): (r: Option<Xtring>)
    ensures r.Some? <==> granted && len <= MAX_CAPACITY
    ensures r.Some? ==> r.value.capacity == len && |r.value.content| == len
    ensures r.Some? ==> forall i :: 0 <= i < len ==> r.value.content[i] == b
  {
    FromByteRepeatCapac(b, len, 0, granted)
  }

  /** The single-byte constructors are the general rule with a one-byte source. */
  lemma FromByteIsGeneralRule(b: bv8, len: Size, atLeast: Size, granted: bool)
    ensures FromByteRepeatCapac(b, len, atLeast, granted) == FromBytesRepeatCapac(Some([b]), 1, len, atLeast, granted)
  {
    RepeatSingleIsFill(b, len);
  }

  /** `xtr_zeros(len)`: `len` zero bytes, no free space. */
  function Zeros(len: Size, granted: bool): (r: Option<Xtring>)
    ensures r.Some? <==> granted && len <= MAX_CAPACITY
    ensures r.Some? ==> r.value.capacity == len && |r.value.content| == len
    ensures r.Some? ==> forall i :: 0 <= i < len ==> r.value.content[i] == 0
  {
    match NewEnsure(len, granted)
    case None => None
    case Some(x) => Some(Xtr(x.capacity, Fill(0, len)))
  }

  lemma ZerosIsGeneralRule(len: Size, granted: bool)
    ensures Zeros(len, granted) == FromBytesRepeatCapac(Some([0]), 1, len, 0, granted)
  {
    FromByteIsGeneralRule(0, len, 0, granted);
  }

  /** `xtr_new_from_c`: NULL gives None, otherwise capacity = used = strlen. */
  function NewFromC(str: Option<CString>, granted: bool): (r: Option<Xtring>)
    ensures r.Some? <==> str.Some? && granted && |str.value| <= MAX_CAPACITY
    ensures r.Some? ==> r.value == Xtr(|str.value|, str.value)
  {
    if str.None? then None
    else
      match NewEnsure(|str.value|, granted)
      case None => None
      case Some(x) => Some(Xtr(x.capacity, str.value))
  }

  /** `xtr_new_from_c_ensure`: a NULL string gives an empty xtring of capacity
      `at_least`; otherwise capacity = max(strlen, at_least). */
  function NewFromCEnsure(str: Option<CString>, atLeast: Size, granted: bool): (r: Option<Xtring>)
    ensures r.Some? <==> granted && Max(|OrEmpty(str)|, atLeast) <= MAX_CAPACITY
    ensures r.Some? ==> r.value == Xtr(Max(|OrEmpty(str)|, atLeast), OrEmpty(str))
  {
    if str.None? then NewEnsure(atLeast, granted)
    else
      match NewEnsure(Max(|str.value|, atLeast), granted)
      case None => None
      case Some(x) => Some(Xtr(x.capacity, str.value))
  }

  /** `xtr_new_fill(c, len)`: `len` copies of `c`. Source line 100 assigns
      `used` without writing the terminator; the model terminates it through
      the setter like every other constructor. */
  function NewFill(c: bv8, len: Size, granted: bool): (r: Option<Xtring>)
    ensures r.Some? <==> granted && len <= MAX_CAPACITY
    ensures r.Some? ==> r.value.capacity == len && |r.value.content| == len
    ensures r.Some? ==> forall i :: 0 <= i < len ==> r.value.content[i] == c
  {
    match NewEnsure(len, granted)
    case None => None
    case Some(x) => Some(Xtr(x.capacity, Fill(c, len)))
  }

  /** The earlier revision's constructors agree with the general rule: the
      string ones on every non-NULL string, `new_from_c_ensure` on every input,
      and the fill constructors with a one-byte pattern. */
  lemma NewFromIsGeneralRule(str: Option<CString>, atLeast: Size, c: bv8, len: Size, granted: bool)
    ensures str.Some? ==> NewFromC(str, granted) == FromStr(str, granted)
    ensures NewFromCEnsure(str, atLeast, granted) == FromStrCapac(str, atLeast, granted)
    ensures NewFill(c, len, granted) == FromBytesRepeatCapac(Some([c]), 1, len, 0, granted)
  {
    FromByteIsGeneralRule(c, len, 0, granted);
  }

  /** `xtr_clone` as documented and tested: same content and same capacity.
      The source (line 38) allocates only `used` bytes; see `CloneAsWritten`. */
  function Clone(x: Option<Xtring>, granted: bool): (r: Option<Xtring>)
    ensures r.Some? <==> x.Some? && granted
    ensures r.Some? ==> r.value == x.value
  {
    if x.None? then None
    else FromBytesCapac(Some(x.value.content), |x.value.content|, x.value.capacity, granted)
  }

  /** `xtr_clone` as written: a copy of the content with no free space. */
  function CloneAsWritten(x: Option<Xtring>, granted: bool): (r: Option<Xtring>)
    ensures r.Some? <==> x.Some? && granted
    ensures r.Some? ==> r.value == Xtr(|x.value.content|, x.value.content)
  {
    if x.None? then None
    else FromBytes(Some(x.value.content), |x.value.content|, granted)
  }

  /** The source's test clones "Abcdef" built with capacity 10 and expects
      capacity 10; the code as written gives 6. */
  lemma CloneLosesCapacity()
    ensures CloneAsWritten(Some(Xtr(10, [0x41, 0x62, 0x63, 0x64, 0x65, 0x66])), true).value.capacity == 6
    ensures Clone(Some(Xtr(10, [0x41, 0x62, 0x63, 0x64, 0x65, 0x66])), true).value.capacity == 10
  {
  }

  /** `xtr_expanded`: same content, capacity max(used, at_least). */
  function Expanded(x: Option<Xtring>, atLeast: Size, granted: bool): (r: Option<Xtring>)
    ensures r.Some? <==> x.Some? && granted && atLeast <= MAX_CAPACITY
    ensures r.Some? ==> r.value == Xtr(Max(|x.value.content|, atLeast), x.value.content)
  {
    if x.None? then None
    else FromBytesCapac(Some(x.value.content), |x.value.content|, atLeast, granted)
  }

  /** `xtr_expand`: on success the handle is replaced by the expanded copy,
      which is also returned; on failure the handle is untouched. Source line 52
      reads `*pxtr` without a NULL check; a NULL handle is modelled as failing. */
  function Expand(handle: Option<Xtring>, atLeast: Size, granted: bool): (e: Effect)
    ensures e.result.Some? <==> handle.Some? && granted && atLeast <= MAX_CAPACITY
    ensures e.result.Some? ==> e.updated == e.result && e.result.value.content == handle.value.content
    ensures e.result.Some? ==> e.result.value.capacity == Max(|handle.value.content|, atLeast)
    ensures e.result.None? ==> e.updated == handle
  {
    var clone := Expanded(handle, atLeast, granted);
    if clone.None? then Effect(handle, None) else Effect(clone, clone)
  }
}
