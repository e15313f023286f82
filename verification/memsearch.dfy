/** The substring-search primitive every find/contains/occurrences/split
    operation is built on (`memmem`, src/xtr_utils.c): a scan for the needle's
    first byte, then a byte-by-byte comparison of the rest. */
module MemSearch {
  import opened Wrappers

  /** `needle` occurs in `hay` at offset `p`. */
  predicate MatchAt(hay: seq<bv8>, needle: seq<bv8>, p: nat) {
    p + |needle| <= |hay| && hay[p..p + |needle|] == needle
  }

  /** The smallest offset at or after `from` where `needle` occurs, if any. */
  function FirstMatchFrom(hay: seq<bv8>, needle: seq<bv8>, from: nat): (r: Option<nat>)
    decreases |hay| - from
    ensures r.Some? ==> from <= r.value && MatchAt(hay, needle, r.value)
    ensures r.Some? ==> forall q :: from <= q < r.value ==> !MatchAt(hay, needle, q)
    ensures r.None? ==> forall q :: from <= q ==> !MatchAt(hay, needle, q)
  {
    if from + |needle| > |hay| then None
    else if MatchAt(hay, needle, from) then Some(from)
    else FirstMatchFrom(hay, needle, from + 1)
  }

  /** A match with none before it, from `from` on, is the first match. */
  lemma FirstMatchIs(hay: seq<bv8>, needle: seq<bv8>, from: nat, p: nat)
    requires from <= p && MatchAt(hay, needle, p)
    requires forall q :: from <= q < p ==> !MatchAt(hay, needle, q)
    ensures FirstMatchFrom(hay, needle, from) == Some(p)
  {
    var r := FirstMatchFrom(hay, needle, from);
    assert r.Some?;
  }

  /** A match starts with the needle's first byte, which is what the `memchr`
      pre-scan relies on. */
  lemma MatchStartsWithFirstByte(hay: seq<bv8>, needle: seq<bv8>, p: nat)
    requires |needle| > 0 && MatchAt(hay, needle, p)
    ensures hay[p] == needle[0]
  {
    assert hay[p..p + |needle|][0] == hay[p];
  }

  /** `memmem` as its comments and callers intend: the first offset of
      `needle` in `hay`, or None. Lines 119-135 of src/xtr_utils.c loop while
      `remaining < pattern_len` (the inverse of the intended test) and do not
      check `memchr` for NULL; the model follows the intent. An empty needle
      is found at offset 0, the usual `memmem` answer: as written the source
      returns NULL for it, and the intended scan would read a needle byte that
      does not exist. No caller searches for an empty needle. */
  method MemMem(hay: seq<bv8>, needle: seq<bv8>) returns (r: Option<nat>)
    ensures r.Some? ==> MatchAt(hay, needle, r.value)
    ensures r.Some? ==> forall q :: 0 <= q < r.value ==> !MatchAt(hay, needle, q)
    ensures r.None? ==> forall q :: 0 <= q ==> !MatchAt(hay, needle, q)
    ensures r == FirstMatchFrom(hay, needle, 0)
  {
    if |needle| == 0 {
      assert MatchAt(hay, needle, 0);
      return Some(0);
    }
    var occurrence := 0;
    while occurrence + |needle| <= |hay|
      invariant occurrence <= |hay|
      invariant forall q :: 0 <= q < occurrence ==> !MatchAt(hay, needle, q)
      decreases |hay| - occurrence
    {
      // memchr: skip to the next candidate first byte
      var c := occurrence;
      while c + |needle| <= |hay| && hay[c] != needle[0]
        invariant occurrence <= c <= |hay|
        invariant forall q :: 0 <= q < c ==> !MatchAt(hay, needle, q)
        decreases |hay| - c
      {
        if MatchAt(hay, needle, c) {
          MatchStartsWithFirstByte(hay, needle, c);
        }
        c := c + 1;
      }
      if c + |needle| > |hay| {
        return None;
      }
      // memcmp: compare the rest of the needle
      var j := 1;
      while j < |needle| && hay[c + j] == needle[j]
        invariant 1 <= j <= |needle|
        invariant forall k :: 0 <= k < j ==> hay[c + k] == needle[k]
      {
        j := j + 1;
      }
      if j == |needle| {
        assert hay[c..c + |needle|] == needle;
        FirstMatchIs(hay, needle, 0, c);
        return Some(c);
      }
      assert hay[c..c + |needle|][j] != needle[j];
      occurrence := c + 1;
    }
    return None;
  }

  /** The loop condition of `memmem` as written, with `remaining` still equal
      to the haystack length: the scan runs only while the needle does NOT
      fit, and NULL is returned when the loop is skipped. */
  predicate MemMemLoopEntersAsWritten(hay: seq<bv8>, needle: seq<bv8>) {
    |hay| < |needle|
  }

  /** Whenever the needle occurs at all, the loop as written is skipped and
      NULL comes back, although the intended search finds a first match. */
  lemma MemMemAsWrittenSkipsEveryMatch(hay: seq<bv8>, needle: seq<bv8>, p: nat)
    requires MatchAt(hay, needle, p)
    ensures !MemMemLoopEntersAsWritten(hay, needle)
    ensures FirstMatchFrom(hay, needle, 0).Some?
  {
  }

  /** "b" in "abc": found at 1 by the intended search, missed as written. */
  lemma MemMemAsWrittenExample()
    ensures !MemMemLoopEntersAsWritten([0x61, 0x62, 0x63], [0x62])
    ensures FirstMatchFrom([0x61, 0x62, 0x63], [0x62], 0) == Some(1)
  {
    var abc: seq<bv8> := [0x61, 0x62, 0x63];
    var b: seq<bv8> := [0x62];
    assert abc[0..1] == [0x61] && abc[1..2] == b;
    assert !MatchAt(abc, b, 0) && MatchAt(abc, b, 1);
  }
}
