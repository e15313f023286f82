/** Hexadecimal text (src/xtr_hex.c, and `xtr_to_hex` in inc/xtr.h): a
    lenient parser that skips separators and "0x" prefixes, and the encoder
    whose output it reads back. Digits are the case-insensitive alphabet of
    section 8 of RFC 4648. */
module Hex {
  import opened Wrappers
  import opened Sizing
  import opened Bytes
  import opened Xtring

  /** A 4-bit value. */
  type Nibble = n: bv8 | n < 16

  /** The value of a hex digit, either case. */
  function DigitValue(b: bv8): (r: Option<Nibble>)
    ensures r.Some? <==> (0x30 <= b <= 0x39 || 0x41 <= b <= 0x46 || 0x61 <= b <= 0x66)
  {
    if 0x30 <= b <= 0x39 then Some(b - 0x30)
    else if 0x61 <= b <= 0x66 then Some(b - 0x61 + 10)
    else if 0x41 <= b <= 0x46 then Some(b - 0x41 + 10)
    else None
  }

  /** The digit for a nibble, upper or lower case. */
  function Digit(n: Nibble, upper: bool): (b: bv8)
    ensures DigitValue(b) == Some(n)
    ensures b != 0 && b != 0x78 && b != 0x58
  {
    if n < 10 then 0x30 + n else if upper then 0x41 + (n - 10) else 0x61 + (n - 10)
  }

  /** The byte with high nibble `high` and low nibble `low`. */
  function FromNibbles(high: Nibble, low: Nibble): bv8 {
    (high << 4) | low
  }

  /** The high and low nibble of a byte. */
  function Nibbles(b: bv8): (r: (Nibble, Nibble))
    ensures FromNibbles(r.0, r.1) == b
  {
    (b >> 4, b & 0x0F)
  }

  /** Bytes the parser passes over: ASCII whitespace, ',', '#' and '_'. */
  predicate IsSkip(b: bv8) {
    IsSpace(b) || b == 0x2C || b == 0x23 || b == 0x5F
  }

  /** A "0x" or "0X" pair at the head of `t`. */
  predicate HexPrefixAt(t: seq<bv8>) {
    |t| > 1 && t[0] == 0x30 && (t[1] == 0x78 || t[1] == 0x58)
  }

  /** The parser over the rest `t` of the text, with the pending high nibble
      (if half a byte has been read) and the bytes decoded so far. Separators
      and every "0x"/"0X" are skipped; any other non-digit fails, and so does
      an odd number of digits. The source tests `byte & 0xF0` to tell the
      first digit from the second, which fails whenever a high nibble is 0
      (`ParseAsWritten`); the model keeps the pending nibble explicitly. */
  function Parse(t: seq<bv8>, high: Option<Nibble>, acc: seq<bv8>): (r: Option<seq<bv8>>)
    ensures r.Some? ==> |acc| <= |r.value| && r.value[..|acc|] == acc
    ensures r.Some? ==> 2 * (|r.value| - |acc|) <= |t| + (if high.Some? then 1 else 0)
    decreases |t|
  {
    if |t| == 0 then (if high.Some? then None else Some(acc))
    else if IsSkip(t[0]) then Parse(t[1..], high, acc)
    else if HexPrefixAt(t) then Parse(t[2..], high, acc)
    else
      match DigitValue(t[0])
      case None => None
      case Some(d) =>
        if high.None? then Parse(t[1..], Some(d), acc)
        else
          var r := Parse(t[1..], None, acc + [FromNibbles(high.value, d)]);
          assert r.Some? ==> r.value[..|acc|] == r.value[..|acc| + 1][..|acc|];
          r
  }

  /** `from_hex`: the bytes a hex text stands for; None for a NULL text or a
      text the parser rejects (the source returns 0 in both cases). */
  function FromHex(hex: Option<CString>): (r: Option<seq<bv8>>)
    ensures hex.None? ==> r.None?
    ensures r.Some? ==> 2 * |r.value| <= |hex.value|
  {
    if hex.None? then None else Parse(hex.value, None, [])
  }

  /** The hex digits of `t` in order, once separators and "0x"/"0X"
      prefixes are passed over; None when any other byte occurs. */
  function Digits(t: seq<bv8>): (r: Option<seq<Nibble>>)
    ensures r.Some? ==> |r.value| <= |t|
    decreases |t|
  {
    if |t| == 0 then Some([])
    else if IsSkip(t[0]) then Digits(t[1..])
    else if HexPrefixAt(t) then Digits(t[2..])
    else
      match DigitValue(t[0])
      case None => None
      case Some(d) =>
        match Digits(t[1..])
        case None => None
        case Some(ds) => Some([d] + ds)
  }

  /** An even number of digits read two at a time, high nibble first. */
  function Pairs(ds: seq<Nibble>): (r: seq<bv8>)
    requires |ds| % 2 == 0
    ensures 2 * |r| == |ds|
    ensures forall i :: 0 <= i < |r| ==> r[i] == FromNibbles(ds[2 * i], ds[2 * i + 1])
    decreases |ds|
  {
    if |ds| == 0 then []
    else
      var rest := Pairs(ds[2..]);
      PairsCons(ds, rest);
      [FromNibbles(ds[0], ds[1])] + rest
  }

  /** The first pair in front of the pairs of the remaining digits. */
  lemma PairsCons(ds: seq<Nibble>, rest: seq<bv8>)
    requires |ds| >= 2 && 2 * |rest| == |ds| - 2
    requires forall i :: 0 <= i < |rest| ==> rest[i] == FromNibbles(ds[2..][2 * i], ds[2..][2 * i + 1])
    ensures forall i :: 0 <= i < |rest| + 1 ==>
              ([FromNibbles(ds[0], ds[1])] + rest)[i] == FromNibbles(ds[2 * i], ds[2 * i + 1])
  {
    var r := [FromNibbles(ds[0], ds[1])] + rest;
    forall i | 0 <= i < |rest| + 1
      ensures r[i] == FromNibbles(ds[2 * i], ds[2 * i + 1])
    {
      if i > 0 {
        assert r[i] == rest[i - 1];
        assert ds[2..][2 * (i - 1)] == ds[2 * i];
        assert ds[2..][2 * (i - 1) + 1] == ds[2 * i + 1];
      }
    }
  }

  /** The pending high nibble as a list of zero or one digits. */
  function Pending(high: Option<Nibble>): (r: seq<Nibble>)
    ensures |r| == (if high.Some? then 1 else 0)
  {
    if high.Some? then [high.value] else []
  }

  /** What the parser yields for a digit list `ds` (None for a text with a
      stray byte), pending high nibble `high` and bytes `acc` decoded so
      far: the pairs appended, or None for an odd number of digits. */
  function Decoded(ds: Option<seq<Nibble>>, high: Option<Nibble>, acc: seq<bv8>): (r: Option<seq<bv8>>)
    ensures r.Some? <==> ds.Some? && (|ds.value| + |Pending(high)|) % 2 == 0
  {
    match ds
    case None => None
    case Some(x) =>
      var all := Pending(high) + x;
      if |all| % 2 == 0 then Some(acc + Pairs(all)) else None
  }

  /** The parser succeeds exactly when the text holds only digits and
      separators and the digits (with the pending one) are even in number;
      it then appends the digit pairs as bytes. */
  lemma {:induction false} ParseDigits(t: seq<bv8>, high: Option<Nibble>, acc: seq<bv8>)
    ensures Parse(t, high, acc) == Decoded(Digits(t), high, acc)
    decreases |t|
  {
    if |t| == 0 {
      assert Pending(high) + [] == Pending(high);
      assert acc + [] == acc;
    } else if IsSkip(t[0]) {
      ParseDigits(t[1..], high, acc);
    } else if HexPrefixAt(t) {
      ParseDigits(t[2..], high, acc);
    } else if DigitValue(t[0]).Some? {
      var d := DigitValue(t[0]).value;
      var rest := Digits(t[1..]);
      assert Digits(t) == (if rest.None? then None else Some([d] + rest.value));
      if high.None? {
        ParseDigits(t[1..], Some(d), acc);
        if rest.Some? {
          DecodedFirstDigit(rest.value, d, acc);
        }
      } else {
        ParseDigits(t[1..], None, acc + [FromNibbles(high.value, d)]);
        if rest.Some? {
          DecodedSecondDigit(rest.value, high.value, d, acc);
        }
      }
    }
  }

  /** A first digit becomes the pending high nibble. */
  lemma DecodedFirstDigit(ds: seq<Nibble>, d: Nibble, acc: seq<bv8>)
    ensures Decoded(Some([d] + ds), None, acc) == Decoded(Some(ds), Some(d), acc)
  {
    assert Pending(None) + ([d] + ds) == Pending(Some(d)) + ds;
  }

  /** A second digit completes the byte with the pending high nibble. */
  lemma DecodedSecondDigit(ds: seq<Nibble>, h: Nibble, d: Nibble, acc: seq<bv8>)
    ensures Decoded(Some([d] + ds), Some(h), acc) == Decoded(Some(ds), None, acc + [FromNibbles(h, d)])
  {
    var all := Pending(Some(h)) + ([d] + ds);
    assert all == [h, d] + ds;
    assert Pending(None) + ds == ds;
    if |ds| % 2 == 0 {
      PairsFront(h, d, ds);
      ConcatAssoc(acc, [FromNibbles(h, d)], Pairs(ds));
    } else {
      assert |all| % 2 == 1;
    }
  }

  /** Two digits in front add their byte in front of the pairs. */
  lemma PairsFront(h: Nibble, d: Nibble, ds: seq<Nibble>)
    requires |ds| % 2 == 0
    ensures Pairs([h, d] + ds) == [FromNibbles(h, d)] + Pairs(ds)
  {
    var all := [h, d] + ds;
    assert all[0] == h && all[1] == d && all[2..] == ds;
  }

  /** `from_hex` decodes exactly the texts made of separators and an even
      number of digits, into the digit pairs read as bytes. */
  lemma FromHexDigits(text: CString)
    ensures FromHex(Some(text)).Some? <==> Digits(text).Some? && |Digits(text).value| % 2 == 0
    ensures FromHex(Some(text)).Some? ==> FromHex(Some(text)).value == Pairs(Digits(text).value)
  {
    ParseDigits(text, None, []);
    if Digits(text).Some? {
      var ds := Digits(text).value;
      assert Pending(None) + ds == ds;
      if |ds| % 2 == 0 {
        assert [] + Pairs(ds) == Pairs(ds);
      }
    }
  }

  /** A byte that is neither a separator, a hex digit, nor the 'x'/'X' of a
      prefix leaves no digit list. */
  lemma {:induction false} DigitsRejectStray(t: seq<bv8>, i: nat)
    requires i < |t| && !IsSkip(t[i]) && DigitValue(t[i]).None? && t[i] != 0x78 && t[i] != 0x58
    ensures Digits(t).None?
    decreases |t|
  {
    if i > 0 {
      if IsSkip(t[0]) {
        DigitsRejectStray(t[1..], i - 1);
      } else if HexPrefixAt(t) {
        DigitsRejectStray(t[2..], i - 2);
      } else if DigitValue(t[0]).Some? {
        DigitsRejectStray(t[1..], i - 1);
      }
    }
  }

  /** `from_hex` fails on any text holding a stray byte. */
  lemma FromHexRejectsStray(text: CString, i: nat)
    requires i < |text| && !IsSkip(text[i]) && DigitValue(text[i]).None? && text[i] != 0x78 && text[i] != 0x58
    ensures FromHex(Some(text)).None?
  {
    DigitsRejectStray(text, i);
    FromHexDigits(text);
  }

  /** `from_hex` fails on any text with an odd number of digits. */
  lemma FromHexRejectsOdd(text: CString)
    requires Digits(text).Some? && |Digits(text).value| % 2 == 1
    ensures FromHex(Some(text)).None?
  {
    FromHexDigits(text);
  }

  /** The two digits of one byte, high nibble first. */
  function ByteDigits(b: bv8, upper: bool): (r: seq<bv8>)
    ensures |r| == 2 && r[0] != 0 && r[1] != 0
  {
    [Digit(Nibbles(b).0, upper), Digit(Nibbles(b).1, upper)]
  }

  /** The hex text of `bin`, with `sep` between neighbouring bytes. */
  function Encode(bin: seq<bv8>, upper: bool, sep: seq<bv8>): (r: seq<bv8>)
    ensures |bin| == 0 <==> r == []
    ensures 0 !in sep ==> 0 !in r
  {
    if |bin| == 0 then []
    else if |bin| == 1 then ByteDigits(bin[0], upper)
    else ByteDigits(bin[0], upper) + sep + Encode(bin[1..], upper, sep)
  }

  /** Two digits per byte, and one separator between neighbouring bytes. */
  lemma {:induction false} EncodeLength(bin: seq<bv8>, upper: bool, sep: seq<bv8>)
    requires |bin| > 0
    ensures |Encode(bin, upper, sep)| == 2 * |bin| + (|bin| - 1) * |sep|
  {
    if |bin| > 1 {
      EncodeLength(bin[1..], upper, sep);
      assert (|bin| - 1) * |sep| == (|bin| - 2) * |sep| + |sep|;
    }
  }

  /** `xtr_to_hex` (inc/xtr.h): a new xtring with the hex text of the
      content; a NULL or empty separator puts nothing between bytes. None for
      a NULL input, a text too long for an xtring, or a refused allocation. */
  function ToHex(bin: Option<Xtring>, upper: bool, sep: Option<CString>, granted: bool): (r: Option<Xtring>)
    ensures r.Some? <==> bin.Some? && granted && |Encode(bin.value.content, upper, OrEmpty(sep))| <= MAX_CAPACITY
    ensures r.Some? ==> r.value.content == Encode(bin.value.content, upper, OrEmpty(sep))
    ensures r.Some? ==> r.value.capacity == |r.value.content|
  {
    if bin.None? then None
    else
      var text := Encode(bin.value.content, upper, OrEmpty(sep));
      if |text| > MAX_CAPACITY then None
      else
        match NewEnsure(|text|, granted)
        case None => None
        case Some(n) => Some(Xtr(n.capacity, text))
  }

  /** Skip bytes are passed over without changing the parser state. */
  lemma {:induction false} ParseSkips(sep: seq<bv8>, t: seq<bv8>, acc: seq<bv8>)
    requires forall i :: 0 <= i < |sep| ==> IsSkip(sep[i])
    ensures Parse(sep + t, None, acc) == Parse(t, None, acc)
    decreases |sep|
  {
    if |sep| > 0 {
      var s := sep + t;
      assert s[0] == sep[0] && IsSkip(sep[0]);
      assert s[1..] == sep[1..] + t;
      assert Parse(s, None, acc) == Parse(s[1..], None, acc);
      ParseSkips(sep[1..], t, acc);
    } else {
      assert sep + t == t;
    }
  }

  /** Two digits of a byte are read back as that byte, provided what follows
      does not start with 'x' or 'X' (which would make a trailing '0' a
      prefix). */
  lemma ParseByte(b: bv8, upper: bool, t: seq<bv8>, acc: seq<bv8>)
    requires |t| == 0 || (t[0] != 0x78 && t[0] != 0x58)
    ensures Parse(ByteDigits(b, upper) + t, None, acc) == Parse(t, None, acc + [b])
  {
    var n := Nibbles(b);
    var d0, d1 := Digit(n.0, upper), Digit(n.1, upper);
    var u := [d1] + t;
    assert ByteDigits(b, upper) + t == [d0] + u;
    calc {
      Parse([d0] + u, None, acc);
    == { ParseDigit(n.0, upper, u, None, acc); }
      Parse(u, Some(n.0), acc);
    == { ParseDigit(n.1, upper, t, Some(n.0), acc); }
      Parse(t, None, acc + [FromNibbles(n.0, n.1)]);
    }
  }

  /** One digit, not followed by an 'x' or 'X', moves the parser one state on. */
  lemma ParseDigit(n: Nibble, upper: bool, t: seq<bv8>, high: Option<Nibble>, acc: seq<bv8>)
    requires |t| == 0 || (t[0] != 0x78 && t[0] != 0x58)
    ensures Parse([Digit(n, upper)] + t, high, acc)
         == if high.None? then Parse(t, Some(n), acc) else Parse(t, None, acc + [FromNibbles(high.value, n)])
  {
    var s := [Digit(n, upper)] + t;
    assert s[0] == Digit(n, upper) && s[1..] == t;
    assert !IsSkip(s[0]) && !HexPrefixAt(s);
  }

  /** Decoding the encoder's text gives the bytes back, whenever the
      separator consists of bytes the parser skips. */
  lemma {:induction false} DecodeEncode(bin: seq<bv8>, upper: bool, sep: seq<bv8>, acc: seq<bv8>)
    requires forall i :: 0 <= i < |sep| ==> IsSkip(sep[i])
    ensures Parse(Encode(bin, upper, sep), None, acc) == Some(acc + bin)
    decreases |bin|
  {
    if |bin| == 0 {
      assert acc + bin == acc;
    } else if |bin| == 1 {
      ParseByte(bin[0], upper, [], acc);
      assert ByteDigits(bin[0], upper) + [] == Encode(bin, upper, sep);
      assert acc + [bin[0]] == acc + bin;
    } else {
      DecodeEncode(bin[1..], upper, sep, acc + [bin[0]]);
      DecodeStep(bin, upper, sep, acc);
    }
  }

  /** The step of `DecodeEncode`: the first byte's digits and a separator
      are read, and parsing goes on over the rest of the text. */
  lemma DecodeStep(bin: seq<bv8>, upper: bool, sep: seq<bv8>, acc: seq<bv8>)
    requires |bin| > 1
    requires forall i :: 0 <= i < |sep| ==> IsSkip(sep[i])
    requires Parse(Encode(bin[1..], upper, sep), None, acc + [bin[0]]) == Some(acc + [bin[0]] + bin[1..])
    ensures Parse(Encode(bin, upper, sep), None, acc) == Some(acc + bin)
  {
    var acc' := acc + [bin[0]];
    var rest := Encode(bin[1..], upper, sep);
    var digits := ByteDigits(bin[0], upper);
    ConcatAssoc(digits, sep, rest);
    assert acc' + bin[1..] == acc + bin;
    NoPrefixAfterByte(bin[1..], upper, sep);
    calc {
      Parse(Encode(bin, upper, sep), None, acc);
      Parse(digits + (sep + rest), None, acc);
      { ParseByte(bin[0], upper, sep + rest, acc); }
      Parse(sep + rest, None, acc');
      { ParseSkips(sep, rest, acc'); }
      Parse(rest, None, acc');
    }
  }

  /** Helper: concatenation regrouped, for the encoder's inductive steps. */
  lemma ConcatAssoc(a: seq<bv8>, b: seq<bv8>, c: seq<bv8>)
    ensures a + b + c == a + (b + c)
  {
  }

  /** What follows a byte's digits in the encoder's text never starts with
      'x' or 'X'. */
  lemma NoPrefixAfterByte(bin: seq<bv8>, upper: bool, sep: seq<bv8>)
    requires |bin| > 0
    requires forall i :: 0 <= i < |sep| ==> IsSkip(sep[i])
    ensures var tail := sep + Encode(bin, upper, sep); tail[0] != 0x78 && tail[0] != 0x58
  {
    var tail := sep + Encode(bin, upper, sep);
    if |sep| > 0 {
      assert tail[0] == sep[0] && IsSkip(sep[0]);
    } else {
      assert tail[0] == ByteDigits(bin[0], upper)[0];
    }
  }

  /** The round trip at the level of the public pair: the text of
      `xtr_to_hex` parses back to the content. */
  lemma FromHexToHex(bin: Option<Xtring>, upper: bool, sep: Option<CString>)
    requires bin.Some? && ToHex(bin, upper, sep, true).Some?
    requires sep.Some? ==> forall i :: 0 <= i < |sep.value| ==> IsSkip(sep.value[i])
    ensures 0 !in ToHex(bin, upper, sep, true).value.content
    ensures FromHex(Some(ToHex(bin, upper, sep, true).value.content)) == Some(bin.value.content)
  {
    DecodeEncode(bin.value.content, upper, OrEmpty(sep), []);
    assert [] + bin.value.content == bin.value.content;
  }

  /** The header's example: [13, 1, 130] is "0D0182". */
  lemma ToHexExample()
    ensures Encode([13, 1, 130], true, []) == [0x30, 0x44, 0x30, 0x31, 0x38, 0x32]
  {
    var bin: seq<bv8> := [13, 1, 130];
    assert ByteDigits(13, true) == [0x30, 0x44];
    assert ByteDigits(1, true) == [0x30, 0x31];
    assert ByteDigits(130, true) == [0x38, 0x32];
    assert Encode(bin[2..], true, []) == [0x38, 0x32];
    assert Encode(bin[1..], true, []) == [0x30, 0x31] + [] + [0x38, 0x32];
  }

  /** Reading " 01 82" after 13: the rest of the header's example. */
  lemma SpacedTail(acc: seq<bv8>)
    ensures Parse([0x20, 0x30, 0x31, 0x20, 0x38, 0x32], None, acc) == Some(acc + [1, 130])
  {
    var t: seq<bv8> := [0x38, 0x32];
    var u: seq<bv8> := [0x30, 0x31, 0x20] + t;
    assert [0x20, 0x30, 0x31, 0x20, 0x38, 0x32] == [0x20] + u;
    assert u == ByteDigits(1, true) + ([0x20] + t) by {
      assert ByteDigits(1, true) == [0x30, 0x31];
    }
    assert t == ByteDigits(130, true) + [] by {
      assert ByteDigits(130, true) == [0x38, 0x32];
    }
    ParseSkips([0x20], u, acc);
    ParseByte(1, true, [0x20] + t, acc);
    ParseSkips([0x20], t, acc + [1]);
    ParseByte(130, true, [], acc + [1]);
    assert acc + [1] + [130] == acc + [1, 130];
  }

  /** The header's example: "0x0D 01 82" parses to [13, 1, 130]. */
  lemma FromHexSpacedExample()
    ensures FromHex(Some([0x30, 0x78, 0x30, 0x44, 0x20, 0x30, 0x31, 0x20, 0x38, 0x32])) == Some([13, 1, 130])
  {
    var w: seq<bv8> := [0x20, 0x30, 0x31, 0x20, 0x38, 0x32];
    var v: seq<bv8> := [0x30, 0x44] + w;
    var text: seq<bv8> := [0x30, 0x78] + v;
    assert [0x30, 0x78, 0x30, 0x44, 0x20, 0x30, 0x31, 0x20, 0x38, 0x32] == text;
    assert HexPrefixAt(text) && text[2..] == v;
    assert v == ByteDigits(13, true) + w by {
      assert ByteDigits(13, true) == [0x30, 0x44];
    }
    assert !IsSkip(text[0]);
    assert Parse(text, None, []) == Parse(v, None, []);
    ParseByte(13, true, w, []);
    assert [] + [13 as bv8] == [13];
    SpacedTail([13]);
    assert [13 as bv8] + [1, 130] == [13, 1, 130];
  }

  /** Examples: "0G" fails on its stray 'G', "1D1" on its odd digit count. */
  lemma FromHexRejects()
    ensures FromHex(Some([0x30, 0x47])) == None
    ensures FromHex(Some([0x31, 0x44, 0x31])) == None
  {
    var bad: seq<bv8> := [0x30, 0x47];
    assert bad[1..] == [0x47];
    var odd: seq<bv8> := [0x31, 0x44, 0x31];
    assert ByteDigits(0x1D, true) + [0x31] == odd;
    ParseByte(0x1D, true, [0x31], []);
    var one: seq<bv8> := [0x31];
    assert one[1..] == [];
  }

  /** `from_hex` as written: `byte` is both the half-built byte and the flag
      telling the first digit from the second (`byte & 0xF0`), and a trailing
      `byte != 0` is the odd-length test. */
  function ParseAsWritten(t: seq<bv8>, byte: bv8, acc: seq<bv8>): (r: Option<seq<bv8>>)
    decreases |t|
  {
    if |t| == 0 then (if byte != 0 then None else Some(acc))
    else if IsSkip(t[0]) then ParseAsWritten(t[1..], byte, acc)
    else if HexPrefixAt(t) then ParseAsWritten(t[2..], byte, acc)
    else
      match DigitValue(t[0])
      case None => None
      case Some(d) =>
        var b := byte | d;
        if b & 0xF0 != 0 then ParseAsWritten(t[1..], 0, acc + [b])
        else ParseAsWritten(t[1..], b << 4, acc)
  }

  /** "0D" fails as written, because its high nibble is 0; the intended
      parser reads 13. */
  lemma ParseAsWrittenMissesZeroHighNibble()
    ensures ParseAsWritten([0x30, 0x44], 0, []) == None
    ensures FromHex(Some([0x30, 0x44])) == Some([13])
  {
    var t: seq<bv8> := [0x30, 0x44];
    assert t[1..] == [0x44] && t[1..][1..] == [];
    ParseByte(13, true, [], []);
    assert ByteDigits(13, true) + [] == t;
  }

  /** "120" is accepted as written, as [0x12], because a lone trailing '0'
      leaves the half-built byte at 0; the intended parser rejects the odd
      digit count. */
  lemma ParseAsWrittenMissesTrailingZero()
    ensures ParseAsWritten([0x31, 0x32, 0x30], 0, []) == Some([0x12])
    ensures FromHex(Some([0x31, 0x32, 0x30])) == None
  {
    var t: seq<bv8> := [0x31, 0x32, 0x30];
    assert t[1..] == [0x32, 0x30] && t[1..][1..] == [0x30] && t[1..][1..][1..] == [];
    assert !HexPrefixAt(t) && !HexPrefixAt(t[1..]);
    assert ParseAsWritten(t[1..][1..], 0, [0x12]) == Some([0x12]);
    assert DigitValue(0x32) == Some(2) && ([] + [0x12 as bv8]) == [0x12];
    assert ParseAsWritten(t[1..], 0x10, []) == Some([0x12]);
    assert ByteDigits(0x12, true) + [0x30] == t;
    ParseByte(0x12, true, [0x30], []);
    var z: seq<bv8> := [0x30];
    assert z[1..] == [];
  }
}
