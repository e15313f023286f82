/** Base64 (src/xtr_base64.c): the alphabet and padding of section 4 of
    RFC 4648, encoding three bytes into four symbols and decoding them back. */
module Base64 {
  import opened Wrappers
  import opened Sizing
  import opened Xtring

  /** A 6-bit value. */
  type Sextet = b: bv8 | b < 64

  const PADDING: bv8 := 0x3D

  /** `b64_int`: the value of a symbol, 64 for the padding '=', and 0 for
      every byte outside the alphabet (the decoder does not validate). The
      source computes on 32 bits; every value fits in a byte. */
  function B64Int(ch: bv8): (r: bv8)
    ensures r <= 64
    ensures r == 64 <==> ch == PADDING
  {
    if ch == 43 then 62
    else if ch == 47 then 63
    else if ch == 61 then 64
    else if 47 < ch < 58 then ch + 4
    else if 64 < ch < 91 then ch - 0x41
    else if 96 < ch < 123 then ch - 0x61 + 26
    else 0
  }

  /** The symbol for a 6-bit value, `BASE64_SYMBOLS[n]`: the table lists
      'A' to 'Z', 'a' to 'z', '0' to '9', '+' and '/'. */
  function Symbol(n: Sextet): (b: bv8)
    ensures B64Int(b) == n
    ensures b != PADDING
  {
    if n < 26 then 0x41 + n
    else if n < 52 then 0x61 + (n - 26)
    else if n < 62 then 0x30 + (n - 52)
    else if n == 62 then 43
    else 47
  }

  /** The 6-bit value a symbol contributes when decoding: padding counts as
      zero bits. */
  function Bits(ch: bv8): (r: Sextet)
    ensures ch != PADDING ==> r == B64Int(ch)
  {
    var v := B64Int(ch);
    if v == 64 then 0 else v
  }

  /** `base64_encode_buffer`: three bytes as four symbols, six bits each,
      most significant first. */
  function Quad(a: bv8, b: bv8, c: bv8): (r: seq<bv8>)
    ensures |r| == 4 && PADDING !in r
  {
    [Symbol(a >> 2), Symbol(((a & 0x03) << 4) | (b >> 4)), Symbol(((b & 0x0F) << 2) | (c >> 6)), Symbol(c & 0x3F)]
  }

  /** The intended `base64_decode_buffer`: four symbols back to three
      bytes, as the comment above it draws (see `TripleAsWritten` for the
      code as it stands). */
  function Triple(e: seq<bv8>): (r: seq<bv8>)
    requires |e| == 4
    ensures |r| == 3
  {
    var s0, s1, s2, s3 := Bits(e[0]), Bits(e[1]), Bits(e[2]), Bits(e[3]);
    [(s0 << 2) | (s1 >> 4), (s1 << 4) | (s2 >> 2), (s2 << 6) | s3]
  }

  /** `base64_decode_buffer` as written: it shifts the symbols' raw ASCII
      codes without `b64_int`, builds the third byte from the second and third
      symbols, stores it one place past the group, and never reads the fourth
      symbol. The result is the group's three output bytes followed by the
      byte written past them; the third output byte is never written and
      keeps whatever `before` the buffer held. */
  function TripleAsWritten(e: seq<bv8>, before: bv8): (r: seq<bv8>)
    requires |e| == 4
    ensures |r| == 4 && r[2] == before
  {
    [(e[0] << 2) | ((e[1] >> 4) & 0x03), (e[1] << 4) | ((e[2] >> 2) & 0x0F), before, (e[1] << 6) | (e[2] & 0x3F)]
  }

  /** "TWFu" is the group of "Man". As written its first two bytes come out
      as 0x51 0x71, the third is left as it was and the fourth symbol plays no
      part, so no prior buffer content makes it "Man". */
  lemma TripleAsWrittenMisdecodes()
    ensures Triple([0x54, 0x57, 0x46, 0x75]) == [0x4D, 0x61, 0x6E]
    ensures Quad(0x4D, 0x61, 0x6E) == [0x54, 0x57, 0x46, 0x75]
    ensures forall x: bv8, before: bv8 :: TripleAsWritten([0x54, 0x57, 0x46, x], before) == [0x51, 0x71, before, 0xC6]
    ensures forall before: bv8 :: TripleAsWritten([0x54, 0x57, 0x46, 0x75], before)[..3] != Triple([0x54, 0x57, 0x46, 0x75])
  {
    forall before: bv8
      ensures TripleAsWritten([0x54, 0x57, 0x46, 0x75], before)[..3] != Triple([0x54, 0x57, 0x46, 0x75])
    {
      assert TripleAsWritten([0x54, 0x57, 0x46, 0x75], before)[0] == 0x51;
    }
  }

  /** The trailing one or two bytes, zero-filled to a group, with one '='
      per missing byte in place of the last symbols. */
  function Trail(rest: seq<bv8>): (r: seq<bv8>)
    requires |rest| < 3
    ensures |rest| == 0 ==> r == []
    ensures |rest| > 0 ==> |r| == 4 && r[3] == PADDING && (r[2] == PADDING <==> |rest| == 1)
  {
    if |rest| == 2 then Quad(rest[0], rest[1], 0)[..3] + [PADDING]
    else if |rest| == 1 then Quad(rest[0], 0, 0)[..2] + [PADDING, PADDING]
    else []
  }

  /** The length of the text for `n` bytes: four symbols per started group. */
  function EncodedLength(n: nat): nat {
    4 * ((n + 2) / 3)
  }

  /** The base64 text of `bin`: the main loop's whole groups of three, then
      the padded trailing group. */
  function Encode(bin: seq<bv8>): (r: seq<bv8>)
    ensures |r| % 4 == 0
    decreases |bin|
  {
    if |bin| >= 3 then Quad(bin[0], bin[1], bin[2]) + Encode(bin[3..]) else Trail(bin)
  }

  /** Four symbols per started group of three bytes. */
  lemma {:induction false} EncodeLength(bin: seq<bv8>)
    ensures |Encode(bin)| == EncodedLength(|bin|)
    decreases |bin|
  {
    if |bin| >= 3 {
      EncodeLength(bin[3..]);
    }
  }

  /** `xtr_base64_encode` with the intended length: a new xtring of exactly
      `EncodedLength` symbols; None when that exceeds an xtring's capacity
      or the allocation is refused. The source does not accept NULL. */
  function B64Encode(bin: Xtring, granted: bool): (r: Option<Xtring>)
    ensures r.Some? <==> granted && EncodedLength(|bin.content|) <= MAX_CAPACITY
    ensures r.Some? ==> r.value.content == Encode(bin.content) && r.value.capacity == |r.value.content|
  {
    var len := EncodedLength(|bin.content|);
    if len > MAX_CAPACITY then None
    else
      match NewEnsure(len, granted)
      case None => None
      case Some(n) =>
        EncodeLength(bin.content);
        Some(Xtr(n.capacity, Encode(bin.content)))
  }

  /** The number of padding symbols the decoder drops: one for a final '=',
      one more for a '=' just before it, each tested on its own. */
  function Pads(e: seq<bv8>): (r: nat)
    ensures r <= 2 && r <= |e|
  {
    (if |e| > 0 && e[|e| - 1] == PADDING then 1 else 0)
    + (if |e| > 1 && e[|e| - 2] == PADDING then 1 else 0)
  }

  /** The decoder's loop: every group of four symbols as three bytes. */
  function Ungroup(e: seq<bv8>): (r: seq<bv8>)
    requires |e| % 4 == 0
    ensures 4 * |r| == 3 * |e|
    decreases |e|
  {
    if |e| == 0 then [] else Triple(e[..4]) + Ungroup(e[4..])
  }

  /** The bytes of a base64 text: the groups decoded, less one byte per
      padding symbol. An empty text decodes to nothing (the source reads
      before its buffer there). */
  function Decode(e: seq<bv8>): (r: seq<bv8>)
    requires |e| % 4 == 0
    ensures |r| == 3 * (|e| / 4) - Pads(e)
  {
    var all := Ungroup(e);
    all[..|all| - Pads(e)]
  }

  /** `xtr_base64_decode`: None for NULL, for a length that is not a
      multiple of four, or when the allocation is refused; otherwise an
      xtring with room for `3 * (used / 4)` bytes holding the decoded ones. */
  function B64Decode(enc: Option<Xtring>, granted: bool): (r: Option<Xtring>)
    ensures r.Some? <==> enc.Some? && |enc.value.content| % 4 == 0 && granted
    ensures r.Some? ==> r.value.content == Decode(enc.value.content)
    ensures r.Some? ==> r.value.capacity == 3 * (|enc.value.content| / 4)
  {
    if enc.None? || |enc.value.content| % 4 != 0 then None
    else
      match NewEnsure(3 * (|enc.value.content| / 4), granted)
      case None => None
      case Some(n) => Some(Xtr(n.capacity, Decode(enc.value.content)))
  }

  /** One group: the three bytes come back. */
  lemma TripleQuad(a: bv8, b: bv8, c: bv8)
    ensures Triple(Quad(a, b, c)) == [a, b, c]
  {
  }

  /** Decoding distributes over whole groups. */
  lemma {:induction false} UngroupAppend(e: seq<bv8>, f: seq<bv8>)
    requires |e| % 4 == 0 && |f| % 4 == 0
    ensures Ungroup(e + f) == Ungroup(e) + Ungroup(f)
    decreases |e|
  {
    if |e| == 0 {
      assert e + f == f;
    } else {
      assert (e + f)[..4] == e[..4];
      assert (e + f)[4..] == e[4..] + f;
      UngroupAppend(e[4..], f);
    }
  }

  /** The zero bytes the trailing group decodes to beyond the input. */
  function PadBytes(n: nat): (r: seq<bv8>)
    ensures |r| == (3 - n % 3) % 3
  {
    if n % 3 == 0 then [] else if n % 3 == 1 then [0, 0] else [0]
  }

  /** The trailing group decodes to the trailing bytes followed by as many
      zero bytes as there are padding symbols. */
  lemma UngroupTrail(rest: seq<bv8>)
    requires |rest| < 3
    ensures Ungroup(Trail(rest)) == rest + PadBytes(|rest|)
  {
    var t := Trail(rest);
    if |rest| == 0 {
      assert t == [] && rest + [] == rest;
    } else {
      assert t[4..] == [] && t[..4] == t;
      assert Ungroup(t) == Triple(t) + [];
      if |rest| == 2 {
        TrailTwo(rest[0], rest[1]);
        assert rest + [0] == [rest[0], rest[1], 0];
      } else {
        TrailOne(rest[0]);
        assert rest + [0, 0] == [rest[0], 0, 0];
      }
    }
  }

  /** Two trailing bytes: the padded group reads as the group with a zero
      third byte. */
  lemma TrailTwo(a: bv8, b: bv8)
    ensures Triple(Trail([a, b])) == [a, b, 0]
  {
    var q := Quad(a, b, 0);
    var t := Trail([a, b]);
    assert t == q[..3] + [PADDING];
    TripleQuad(a, b, 0);
    assert q[3] == Symbol(0) && Bits(q[3]) == 0 == Bits(PADDING);
    assert t[0] == q[0] && t[1] == q[1] && t[2] == q[2];
  }

  /** One trailing byte: the padded group reads as the group with two zero
      bytes after it. */
  lemma TrailOne(a: bv8)
    ensures Triple(Trail([a])) == [a, 0, 0]
  {
    var q := Quad(a, 0, 0);
    var t := Trail([a]);
    assert t == q[..2] + [PADDING, PADDING];
    TripleQuad(a, 0, 0);
    assert q[2] == Symbol(0) && q[3] == Symbol(0);
    assert t[0] == q[0] && t[1] == q[1];
  }

  /** The padding the decoder counts is the padding the encoder wrote. */
  lemma {:induction false} PadsOfEncode(bin: seq<bv8>)
    ensures Pads(Encode(bin)) == |PadBytes(|bin|)|
    decreases |bin|
  {
    if |bin| >= 3 {
      var q, e := Quad(bin[0], bin[1], bin[2]), Encode(bin[3..]);
      PadsOfEncode(bin[3..]);
      PadsCons(q, e);
      assert |PadBytes(|bin[3..]|)| == |PadBytes(|bin|)|;
    }
  }

  /** A leading group without padding leaves the count to the rest, or to
      itself when nothing follows. */
  lemma PadsCons(q: seq<bv8>, e: seq<bv8>)
    requires |q| == 4 && PADDING !in q && |e| % 4 == 0
    ensures Pads(q + e) == Pads(e)
  {
    var r := q + e;
    if |e| == 0 {
      assert r == q && q[3] in q && q[2] in q;
    } else {
      assert r[|r| - 1] == e[|e| - 1] && r[|r| - 2] == e[|e| - 2];
    }
  }

  /** Decoding a leading group of four symbols. */
  lemma UngroupCons(q: seq<bv8>, e: seq<bv8>)
    requires |q| == 4 && |e| % 4 == 0
    ensures Ungroup(q + e) == Triple(q) + Ungroup(e)
  {
    assert (q + e)[..4] == q && (q + e)[4..] == e;
  }

  /** All the groups of the text decode to the input and the padding's
      zero bytes. */
  lemma {:induction false} UngroupEncode(bin: seq<bv8>)
    ensures Ungroup(Encode(bin)) == bin + PadBytes(|bin|)
    decreases |bin|
  {
    if |bin| >= 3 {
      var q, e := Quad(bin[0], bin[1], bin[2]), Encode(bin[3..]);
      var pad := PadBytes(|bin|);
      assert PadBytes(|bin[3..]|) == pad;
      calc {
        Ungroup(Encode(bin));
        Ungroup(q + e);
        { UngroupCons(q, e); }
        Triple(q) + Ungroup(e);
        { TripleQuad(bin[0], bin[1], bin[2]); UngroupEncode(bin[3..]); }
        [bin[0], bin[1], bin[2]] + (bin[3..] + pad);
        { FirstThree(bin, pad); }
        bin + pad;
      }
    } else {
      UngroupTrail(bin);
    }
  }

  lemma FirstThree(bin: seq<bv8>, pad: seq<bv8>)
    requires |bin| >= 3
    ensures [bin[0], bin[1], bin[2]] + (bin[3..] + pad) == bin + pad
  {
  }

  /** Round trip: the text of any bytes decodes back to them. */
  lemma {:induction false} DecodeEncode(bin: seq<bv8>)
    ensures Decode(Encode(bin)) == bin
  {
    UngroupEncode(bin);
    PadsOfEncode(bin);
    assert (bin + PadBytes(|bin|))[..|bin|] == bin;
  }

  /** The round trip at the level of the public pair. */
  lemma B64DecodeEncode(bin: Xtring)
    requires B64Encode(bin, true).Some?
    ensures B64Decode(B64Encode(bin, true), true).Some?
    ensures B64Decode(B64Encode(bin, true), true).value.content == bin.content
  {
    DecodeEncode(bin.content);
  }

  /** One byte: 'f' is "Zg==", and "Zg==" is 'f'. */
  lemma OneByteExample()
    ensures Encode([0x66]) == [0x5A, 0x67, 0x3D, 0x3D]
    ensures Decode([0x5A, 0x67, 0x3D, 0x3D]) == [0x66]
  {
    assert Quad(0x66, 0, 0) == [0x5A, 0x67, 0x41, 0x41];
    DecodeEncode([0x66]);
  }

  /** A text with a length that is not a multiple of four is refused. */
  lemma B64DecodeRejectsLength(enc: Xtring, granted: bool)
    requires |enc.content| % 4 != 0
    ensures B64Decode(Some(enc), granted) == None
  {
  }

  /** `xtr_base64_encode` as written sizes the text as
      `((used + 2) * 4) / 3`, which is the exact length only when `used % 3`
      is 1; the bytes past the symbols are whatever the allocation held. */
  function EncodedLengthAsWritten(n: Size): nat {
    Wrap(Wrap(n + 2) * 4) / 3
  }

  function B64EncodeAsWritten(bin: Xtring, granted: bool, junk: seq<bv8>): (r: Option<Xtring>)
    requires |junk| >= 2
  {
    var len := EncodedLengthAsWritten(|bin.content|);
    if len < Wrap(|bin.content| + 2) || len > MAX_CAPACITY then None
    else
      match NewEnsure(len, granted)
      case None => None
      case Some(n) =>
        var buffer := Encode(bin.content) + junk;
        Some(Xtr(n.capacity, buffer[..Min(len, |buffer|)]))
  }

  /** Two bytes "fo": as written the text has five bytes, which its own
      decoder refuses; the intended text is "Zm8=". */
  lemma B64EncodeAsWrittenTooLong(junk: seq<bv8>)
    requires |junk| >= 2
    ensures B64EncodeAsWritten(Xtr(2, [0x66, 0x6F]), true, junk).Some?
    ensures |B64EncodeAsWritten(Xtr(2, [0x66, 0x6F]), true, junk).value.content| == 5
    ensures B64Decode(B64EncodeAsWritten(Xtr(2, [0x66, 0x6F]), true, junk), true) == None
    ensures B64Encode(Xtr(2, [0x66, 0x6F]), true).value.content == [0x5A, 0x6D, 0x38, 0x3D]
  {
    TwoByteExample();
    assert EncodedLengthAsWritten(2) == 5;
  }

  /** Two bytes: "fo" is "Zm8=". */
  lemma TwoByteExample()
    ensures Encode([0x66, 0x6F]) == [0x5A, 0x6D, 0x38, 0x3D]
  {
    assert Quad(0x66, 0x6F, 0) == [0x5A, 0x6D, 0x38, 0x41];
  }
}
