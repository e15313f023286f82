/** UTF-8 codepoints (src/xtr_unicode.c): the original scheme of section 2
    of RFC 2279, with up to six bytes for codepoints of up to 31 bits, and
    a self-synchronising decoder. Codepoints are `uint32_t`, modelled as
    `bv32`. */
module Utf8 {
  /** `UNICODE_REPLACEMENT_CHAR`, returned for a broken sequence. */
  const REPLACEMENT: bv32 := 0xFFFD

  /** A byte of the form 10xxxxxx, which only continues a sequence. */
  predicate IsContinuation(b: bv8) {
    b & 0xC0 == 0x80
  }

  /** A continuation byte carrying six bits of `cp`, counted from `shift`. */
  function Cont(cp: bv32, shift: bv32): (b: bv8)
    requires shift <= 30
    ensures IsContinuation(b)
  {
    (0x80 | ((cp >> shift) & 0x3F)) as bv8
  }

  /** `utf8_encode`: the bytes written for `cp`, in the shortest form, and
      none at all above 0x7FFFFFFF. The source's two-byte branch stops at
      0x3FF although it carries 11 bits (`EncodeAsWritten`); the model
      uses 0x7FF. */
  function Encode(cp: bv32): (r: seq<bv8>)
    ensures |r| == 0 <==> cp > 0x7FFF_FFFF
    ensures cp <= 0x7F ==> r == [cp as bv8]
    ensures |r| > 1 ==> r[0] & 0xC0 == 0xC0 && forall i :: 1 <= i < |r| ==> IsContinuation(r[i])
    ensures |r| <= 6
  {
    if cp <= 0x7F then [cp as bv8]
    else if cp <= 0x7FF then [(0xC0 | ((cp >> 6) & 0x1F)) as bv8, Cont(cp, 0)]
    else if cp <= 0xFFFF then [(0xE0 | ((cp >> 12) & 0x0F)) as bv8, Cont(cp, 6), Cont(cp, 0)]
    else if cp <= 0x1F_FFFF then
      [(0xF0 | ((cp >> 18) & 0x07)) as bv8, Cont(cp, 12), Cont(cp, 6), Cont(cp, 0)]
    else if cp <= 0x3FF_FFFF then
      [(0xF8 | ((cp >> 24) & 0x03)) as bv8, Cont(cp, 18), Cont(cp, 12), Cont(cp, 6), Cont(cp, 0)]
    else if cp <= 0x7FFF_FFFF then
      [(0xFC | ((cp >> 30) & 0x01)) as bv8, Cont(cp, 24), Cont(cp, 18), Cont(cp, 12), Cont(cp, 6), Cont(cp, 0)]
    else []
  }

  /** The byte at `i`, reading the C string's terminator past the end. */
  function At(s: seq<bv8>, i: nat): bv8 {
    if i < |s| then s[i] else 0
  }

  /** The first position from `i` on that does not hold a continuation
      byte: the decoder's resynchronisation. */
  function SkipContinuations(s: seq<bv8>, i: nat): (j: nat)
    ensures i <= j && !IsContinuation(At(s, j))
    ensures forall k :: i <= k < j ==> IsContinuation(At(s, k))
    decreases |s| - i
  {
    if IsContinuation(At(s, i)) then SkipContinuations(s, i + 1) else i
  }

  /** The count of continuation bytes a lead byte announces, found by
      walking `mask` down to its first zero bit below the leading 11, and
      that mask. */
  function Following(lead: bv8, mask: bv8, count: nat): (r: (nat, bv8))
    ensures r.0 >= count
    decreases mask
  {
    if lead & mask != 0 then Following(lead, mask >> 1, count + 1) else (count, mask)
  }

  /** Reads `n` continuation bytes from `i` into `cp`, six bits each;
      the replacement character as soon as one is not a continuation. */
  function Gather(s: seq<bv8>, i: nat, n: nat, cp: bv32): (r: bv32)
    decreases n
  {
    if n == 0 then cp
    else if IsContinuation(At(s, i)) then Gather(s, i + 1, n - 1, (cp << 6) | ((At(s, i) & 0x3F) as bv32))
    else REPLACEMENT
  }

  /** `utf8_decode`: the codepoint at the head of `s` after skipping
      continuation bytes. `mask - 1` is computed on `unsigned int`, so a
      mask of 0 keeps every bit of the lead byte. */
  function Decode(s: seq<bv8>): (r: bv32)
    ensures At(s, 0) < 0x80 ==> r == At(s, 0) as bv32
  {
    var i := SkipContinuations(s, 0);
    var lead := At(s, i);
    if lead & 0xC0 == 0xC0 then
      var f := Following(lead, 0x20, 1);
      Gather(s, i + 1, f.0, (lead as bv32) & ((f.1 as bv32) - 1))
    else lead as bv32
  }

  /** Leading continuation bytes are passed over. */
  lemma DecodeSkipsContinuation(c: bv8, s: seq<bv8>)
    requires IsContinuation(c)
    ensures Decode([c] + s) == Decode(s)
  {
    var t := [c] + s;
    var j := SkipContinuations(s, 0);
    assert SkipContinuations(t, 0) == j + 1 by {
      assert IsContinuation(At(t, 0));
      SkipShift(c, s, 0);
    }
    var lead := At(s, j);
    assert At(t, j + 1) == lead;
    if lead & 0xC0 == 0xC0 {
      var f := Following(lead, 0x20, 1);
      GatherShift(c, s, j + 1, f.0, (lead as bv32) & ((f.1 as bv32) - 1));
    }
  }

  /** Skipping over `[c] + s` from `i + 1` ends one past skipping `s` from `i`. */
  lemma {:induction false} SkipShift(c: bv8, s: seq<bv8>, i: nat)
    ensures SkipContinuations([c] + s, i + 1) == SkipContinuations(s, i) + 1
    decreases |s| - i
  {
    assert At([c] + s, i + 1) == At(s, i);
    if IsContinuation(At(s, i)) {
      SkipShift(c, s, i + 1);
    }
  }

  /** Reading continuations from `[c] + s` at `i + 1` is reading `s` at `i`. */
  lemma {:induction false} GatherShift(c: bv8, s: seq<bv8>, i: nat, n: nat, cp: bv32)
    ensures Gather([c] + s, i + 1, n, cp) == Gather(s, i, n, cp)
    decreases n
  {
    assert At([c] + s, i + 1) == At(s, i);
    if n > 0 && IsContinuation(At(s, i)) {
      GatherShift(c, s, i + 1, n - 1, (cp << 6) | ((At(s, i) & 0x3F) as bv32));
    }
  }

  /** Six more bits of a codepoint from a continuation byte. */
  function Shifted(acc: bv32, b: bv8): bv32 {
    (acc << 6) | ((b & 0x3F) as bv32)
  }

  /** The bits of `e[i..]` appended to `acc`, six per byte. */
  function Fold(e: seq<bv8>, i: nat, acc: bv32): bv32
    decreases |e| - i
  {
    if i >= |e| then acc else Fold(e, i + 1, Shifted(acc, e[i]))
  }

  /** Gathering `n` continuation bytes is folding them in. */
  lemma {:induction false} GatherFold(s: seq<bv8>, e: seq<bv8>, i: nat, acc: bv32)
    requires |e| <= |s| && s[..|e|] == e && i <= |e|
    requires forall k :: i <= k < |e| ==> IsContinuation(e[k])
    ensures Gather(s, i, |e| - i, acc) == Fold(e, i, acc)
    decreases |e| - i
  {
    if i < |e| {
      assert At(s, i) == e[i] by {
        assert s[..|e|][i] == s[i];
      }
      GatherFold(s, e, i + 1, Shifted(acc, e[i]));
    }
  }

  /** The decoder on a lead byte followed by the continuation bytes it
      announces: their bits folded onto the lead byte's payload. */
  lemma DecodeSequence(e: seq<bv8>, rest: seq<bv8>, mask: bv8)
    requires |e| > 1 && e[0] & 0xC0 == 0xC0
    requires Following(e[0], 0x20, 1) == (|e| - 1, mask)
    requires forall k :: 1 <= k < |e| ==> IsContinuation(e[k])
    ensures Decode(e + rest) == Fold(e, 1, (e[0] as bv32) & ((mask as bv32) - 1))
  {
    var s := e + rest;
    assert s[..|e|] == e;
    assert At(s, 0) == e[0];
    GatherFold(s, e, 1, (e[0] as bv32) & ((mask as bv32) - 1));
  }

  /** A lead byte 0xC0 announces 1 continuation byte. */
  lemma Following2(lead: bv8)
    requires lead & 0xE0 == 0xC0
    ensures Following(lead, 0x20, 1) == (1, 0x20)
  {
  }

  lemma Fold2(e: seq<bv8>, a: bv32)
    requires |e| == 2
    ensures Fold(e, 1, a) == Shifted(a, e[1])
  {
    assert Fold(e, 1, a) == Fold(e, 2, Shifted(a, e[1]));
  }

  lemma Payload2(cp: bv32)
    requires 0x7F < cp <= 0x7FF
    ensures Shifted(((0xC0 | ((cp >> 6) & 0x1F)) as bv8 as bv32) & 0x1F, Cont(cp, 0)) == cp
  {
  }

  lemma RoundTrip2(cp: bv32, rest: seq<bv8>)
    requires 0x7F < cp <= 0x7FF
    ensures Decode(Encode(cp) + rest) == cp
  {
    var e: seq<bv8> := [(0xC0 | ((cp >> 6) & 0x1F)) as bv8, Cont(cp, 0)];
    assert Encode(cp) == e;
    Following2(e[0]);
    DecodeSequence(e, rest, 0x20);
    Fold2(e, (e[0] as bv32) & 0x1F);
    Payload2(cp);
  }

  /** A lead byte 0xE0 announces 2 continuation bytes. */
  lemma Following3(lead: bv8)
    requires lead & 0xF0 == 0xE0
    ensures Following(lead, 0x20, 1) == (2, 0x10)
  {
    assert Following(lead, 0x10, 2) == (2, 0x10);
  }

  lemma Fold3(e: seq<bv8>, a: bv32)
    requires |e| == 3
    ensures Fold(e, 1, a) == Shifted(Shifted(a, e[1]), e[2])
  {
    assert Fold(e, 1, a) == Fold(e, 2, Shifted(a, e[1]));
    assert Fold(e, 2, Shifted(a, e[1])) == Fold(e, 3, Shifted(Shifted(a, e[1]), e[2]));
  }

  lemma Payload3(cp: bv32)
    requires 0x7FF < cp <= 0xFFFF
    ensures Shifted(Shifted(((0xE0 | ((cp >> 12) & 0x0F)) as bv8 as bv32) & 0x0F, Cont(cp, 6)), Cont(cp, 0)) == cp
  {
  }

  lemma RoundTrip3(cp: bv32, rest: seq<bv8>)
    requires 0x7FF < cp <= 0xFFFF
    ensures Decode(Encode(cp) + rest) == cp
  {
    var e: seq<bv8> := [(0xE0 | ((cp >> 12) & 0x0F)) as bv8, Cont(cp, 6), Cont(cp, 0)];
    assert Encode(cp) == e;
    Following3(e[0]);
    DecodeSequence(e, rest, 0x10);
    Fold3(e, (e[0] as bv32) & 0x0F);
    Payload3(cp);
  }

  /** A lead byte 0xF0 announces 3 continuation bytes. */
  lemma Following4(lead: bv8)
    requires lead & 0xF8 == 0xF0
    ensures Following(lead, 0x20, 1) == (3, 0x08)
  {
    assert Following(lead, 0x08, 3) == (3, 0x08);
    assert Following(lead, 0x10, 2) == (3, 0x08);
  }

  lemma Fold4(e: seq<bv8>, a: bv32)
    requires |e| == 4
    ensures Fold(e, 1, a) == Shifted(Shifted(Shifted(a, e[1]), e[2]), e[3])
  {
    assert Fold(e, 1, a) == Fold(e, 2, Shifted(a, e[1]));
    assert Fold(e, 2, Shifted(a, e[1])) == Fold(e, 3, Shifted(Shifted(a, e[1]), e[2]));
    assert Fold(e, 3, Shifted(Shifted(a, e[1]), e[2])) == Fold(e, 4, Shifted(Shifted(Shifted(a, e[1]), e[2]), e[3]));
  }

  lemma Payload4(cp: bv32)
    requires 0xFFFF < cp <= 0x1F_FFFF
    ensures Shifted(Shifted(Shifted(((0xF0 | ((cp >> 18) & 0x07)) as bv8 as bv32) & 0x07, Cont(cp, 12)), Cont(cp, 6)), Cont(cp, 0)) == cp
  {
  }

  lemma RoundTrip4(cp: bv32, rest: seq<bv8>)
    requires 0xFFFF < cp <= 0x1F_FFFF
    ensures Decode(Encode(cp) + rest) == cp
  {
    var e: seq<bv8> := [(0xF0 | ((cp >> 18) & 0x07)) as bv8, Cont(cp, 12), Cont(cp, 6), Cont(cp, 0)];
    assert Encode(cp) == e;
    Following4(e[0]);
    DecodeSequence(e, rest, 0x08);
    Fold4(e, (e[0] as bv32) & 0x07);
    Payload4(cp);
  }

  /** A lead byte 0xF8 announces 4 continuation bytes. */
  lemma Following5(lead: bv8)
    requires lead & 0xFC == 0xF8
    ensures Following(lead, 0x20, 1) == (4, 0x04)
  {
    assert Following(lead, 0x04, 4) == (4, 0x04);
    assert Following(lead, 0x08, 3) == (4, 0x04);
    assert Following(lead, 0x10, 2) == (4, 0x04);
  }

  lemma Fold5(e: seq<bv8>, a: bv32)
    requires |e| == 5
    ensures Fold(e, 1, a) == Shifted(Shifted(Shifted(Shifted(a, e[1]), e[2]), e[3]), e[4])
  {
    assert Fold(e, 1, a) == Fold(e, 2, Shifted(a, e[1]));
    assert Fold(e, 2, Shifted(a, e[1])) == Fold(e, 3, Shifted(Shifted(a, e[1]), e[2]));
    assert Fold(e, 3, Shifted(Shifted(a, e[1]), e[2])) == Fold(e, 4, Shifted(Shifted(Shifted(a, e[1]), e[2]), e[3]));
    assert Fold(e, 4, Shifted(Shifted(Shifted(a, e[1]), e[2]), e[3])) == Fold(e, 5, Shifted(Shifted(Shifted(Shifted(a, e[1]), e[2]), e[3]), e[4]));
  }

  lemma Payload5(cp: bv32)
    requires 0x1F_FFFF < cp <= 0x3FF_FFFF
    ensures Shifted(Shifted(Shifted(Shifted(((0xF8 | ((cp >> 24) & 0x03)) as bv8 as bv32) & 0x03, Cont(cp, 18)), Cont(cp, 12)), Cont(cp, 6)), Cont(cp, 0)) == cp
  {
  }

  lemma RoundTrip5(cp: bv32, rest: seq<bv8>)
    requires 0x1F_FFFF < cp <= 0x3FF_FFFF
    ensures Decode(Encode(cp) + rest) == cp
  {
    var e: seq<bv8> := [(0xF8 | ((cp >> 24) & 0x03)) as bv8, Cont(cp, 18), Cont(cp, 12), Cont(cp, 6), Cont(cp, 0)];
    assert Encode(cp) == e;
    Following5(e[0]);
    DecodeSequence(e, rest, 0x04);
    Fold5(e, (e[0] as bv32) & 0x03);
    Payload5(cp);
  }

  /** A lead byte 0xFC announces 5 continuation bytes. */
  lemma Following6(lead: bv8)
    requires lead & 0xFE == 0xFC
    ensures Following(lead, 0x20, 1) == (5, 0x02)
  {
    assert Following(lead, 0x02, 5) == (5, 0x02);
    assert Following(lead, 0x04, 4) == (5, 0x02);
    assert Following(lead, 0x08, 3) == (5, 0x02);
    assert Following(lead, 0x10, 2) == (5, 0x02);
  }

  lemma Fold6(e: seq<bv8>, a: bv32)
    requires |e| == 6
    ensures Fold(e, 1, a) == Shifted(Shifted(Shifted(Shifted(Shifted(a, e[1]), e[2]), e[3]), e[4]), e[5])
  {
    assert Fold(e, 1, a) == Fold(e, 2, Shifted(a, e[1]));
    assert Fold(e, 2, Shifted(a, e[1])) == Fold(e, 3, Shifted(Shifted(a, e[1]), e[2]));
    assert Fold(e, 3, Shifted(Shifted(a, e[1]), e[2])) == Fold(e, 4, Shifted(Shifted(Shifted(a, e[1]), e[2]), e[3]));
    assert Fold(e, 4, Shifted(Shifted(Shifted(a, e[1]), e[2]), e[3])) == Fold(e, 5, Shifted(Shifted(Shifted(Shifted(a, e[1]), e[2]), e[3]), e[4]));
    assert Fold(e, 5, Shifted(Shifted(Shifted(Shifted(a, e[1]), e[2]), e[3]), e[4])) == Fold(e, 6, Shifted(Shifted(Shifted(Shifted(Shifted(a, e[1]), e[2]), e[3]), e[4]), e[5]));
  }

  lemma Payload6(cp: bv32)
    requires 0x3FF_FFFF < cp <= 0x7FFF_FFFF
    ensures Shifted(Shifted(Shifted(Shifted(Shifted(((0xFC | ((cp >> 30) & 0x01)) as bv8 as bv32) & 0x01, Cont(cp, 24)), Cont(cp, 18)), Cont(cp, 12)), Cont(cp, 6)), Cont(cp, 0)) == cp
  {
  }

  lemma RoundTrip6(cp: bv32, rest: seq<bv8>)
    requires 0x3FF_FFFF < cp <= 0x7FFF_FFFF
    ensures Decode(Encode(cp) + rest) == cp
  {
    var e: seq<bv8> := [(0xFC | ((cp >> 30) & 0x01)) as bv8, Cont(cp, 24), Cont(cp, 18), Cont(cp, 12), Cont(cp, 6), Cont(cp, 0)];
    assert Encode(cp) == e;
    Following6(e[0]);
    DecodeSequence(e, rest, 0x02);
    Fold6(e, (e[0] as bv32) & 0x01);
    Payload6(cp);
  }

  /** Round trip: the bytes written for any codepoint of up to 31 bits,
      whatever follows them, decode back to it. */
  lemma DecodeEncode(cp: bv32, rest: seq<bv8>)
    requires cp <= 0x7FFF_FFFF
    ensures Decode(Encode(cp) + rest) == cp
  {
    if cp <= 0x7F {
      assert At(Encode(cp) + rest, 0) == cp as bv8;
    } else if cp <= 0x7FF {
      RoundTrip2(cp, rest);
    } else if cp <= 0xFFFF {
      RoundTrip3(cp, rest);
    } else if cp <= 0x1F_FFFF {
      RoundTrip4(cp, rest);
    } else if cp <= 0x3FF_FFFF {
      RoundTrip5(cp, rest);
    } else {
      RoundTrip6(cp, rest);
    }
  }

  /** A lead byte whose announced continuation bytes break off at the
      `k`-th (a byte that does not continue, or the end of the text)
      decodes to the replacement character. */
  lemma DecodeReplacement(s: seq<bv8>, k: nat)
    requires |s| > 0 && s[0] & 0xC0 == 0xC0
    requires 1 <= k <= Following(s[0], 0x20, 1).0
    requires forall j :: 1 <= j < k ==> IsContinuation(At(s, j))
    requires !IsContinuation(At(s, k))
    ensures Decode(s) == REPLACEMENT
  {
    assert At(s, 0) == s[0];
    var f := Following(s[0], 0x20, 1);
    GatherBreaks(s, 1, f.0, (s[0] as bv32) & ((f.1 as bv32) - 1), k);
  }

  /** Gathering stops with the replacement character at the first byte
      of the `n` that is not a continuation. */
  lemma {:induction false} GatherBreaks(s: seq<bv8>, i: nat, n: nat, cp: bv32, k: nat)
    requires i <= k < i + n
    requires forall j :: i <= j < k ==> IsContinuation(At(s, j))
    requires !IsContinuation(At(s, k))
    ensures Gather(s, i, n, cp) == REPLACEMENT
    decreases n
  {
    if i < k {
      GatherBreaks(s, i + 1, n - 1, (cp << 6) | ((At(s, i) & 0x3F) as bv32), k);
    }
  }

  /** 'é' (0xE9) is 0xC3 0xA9; 0xC3 followed by 'A' is broken. */
  lemma Examples()
    ensures Encode(0xE9) == [0xC3, 0xA9]
    ensures Decode([0xC3, 0x41]) == REPLACEMENT
    ensures Decode([0xA9, 0x41]) == 0x41
  {
    DecodeReplacement([0xC3, 0x41], 1);
    DecodeSkipsContinuation(0xA9, [0x41]);
  }

  /** `utf8_encode` as written: the two-byte branch ends at 0x3FF. */
  function EncodeAsWritten(cp: bv32): seq<bv8> {
    if cp <= 0x3FF then Encode(cp)
    else if cp <= 0xFFFF then [(0xE0 | ((cp >> 12) & 0x0F)) as bv8, Cont(cp, 6), Cont(cp, 0)]
    else Encode(cp)
  }

  /** 0x400 is written in three bytes instead of the shortest two, an
      overlong form section 2 of RFC 2279 rules out; the lenient decoder
      still reads it back. */
  lemma EncodeAsWrittenOverlong()
    ensures EncodeAsWritten(0x400) == [0xE0, 0x90, 0x80]
    ensures Encode(0x400) == [0xD0, 0x80]
    ensures Decode(EncodeAsWritten(0x400)) == 0x400
  {
    var e := EncodeAsWritten(0x400);
    Following3(e[0]);
    assert e + [] == e;
    DecodeSequence(e, [], 0x10);
    Fold3(e, (e[0] as bv32) & 0x0F);
  }
}
