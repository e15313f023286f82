/** Byte-sequence vocabulary shared by every part of the model: C strings,
    repetition, reversal and the ASCII whitespace class. */
module Bytes {
  import opened Wrappers
  import opened Sizing

  /** The bytes of a null-terminated C string before its terminator: no byte is
      zero and `strlen` fits a `size_t`. */
  type CString = s: seq<bv8> | 0 !in s && |s| <= SIZE_MAX witness []

  /** A possibly-NULL source: the NULL pointer reads as zero bytes. */
  function OrEmpty(src: Option<seq<bv8>>): seq<bv8> {
    if src.Some? then src.value else []
  }

  /** `isspace` in the "C" locale: space, \t, \n, \v, \f, \r. */
  predicate IsSpace(b: bv8) {
    b == 0x20 || b == 0x09 || b == 0x0A || b == 0x0B || b == 0x0C || b == 0x0D
  }

  /** `n` back-to-back copies of `s`. */
  function Repeat(s: seq<bv8>, n: nat): (r: seq<bv8>)
    ensures |r| == n * |s|
  {
    if n == 0 then [] else s + Repeat(s, n - 1)
  }

  /** Repetition distributes over a sum of counts. */
  lemma {:induction false} RepeatAdd(s: seq<bv8>, a: nat, b: nat)
    ensures Repeat(s, a + b) == Repeat(s, a) + Repeat(s, b)
  {
    if a > 0 {
      RepeatAdd(s, a - 1, b);
      assert Repeat(s, a + b) == s + Repeat(s, a - 1 + b);
    }
  }

  /** Copy number `k` of a repetition sits at offset `k * |s|`, as the source's
      `memcpy(&buffer[i * len], array, len)` loop places it. */
  lemma {:induction false} RepeatCopyAt(s: seq<bv8>, n: nat, k: nat)
    requires k < n
    ensures k * |s| + |s| <= |Repeat(s, n)|
    ensures Repeat(s, n)[k * |s|..k * |s| + |s|] == s
  {
    RepeatAdd(s, k, n - k);
    assert Repeat(s, n - k) == s + Repeat(s, n - k - 1);
    assert |Repeat(s, k)| == k * |s|;
    var r := Repeat(s, n);
    assert r == Repeat(s, k) + (s + Repeat(s, n - k - 1));
    assert r[k * |s|..k * |s| + |s|] == s;
  }

  /** `n` copies of one byte (`memset`). */
  function Fill(b: bv8, n: nat): (r: seq<bv8>)
    ensures |r| == n && forall i :: 0 <= i < n ==> r[i] == b
  {
    seq(n, _ => b)
  }

  /** Repeating a one-byte pattern is a `memset`. */
  lemma {:induction false} RepeatSingleIsFill(b: bv8, n: nat)
    ensures Repeat([b], n) == Fill(b, n)
  {
    if n > 0 {
      RepeatSingleIsFill(b, n - 1);
      assert Repeat([b], n) == [b] + Fill(b, n - 1);
    }
  }

  /** End-to-start order. */
  function Rev(s: seq<bv8>): (r: seq<bv8>)
    ensures |r| == |s|
  {
    seq(|s|, i requires 0 <= i < |s| => s[|s| - 1 - i])
  }

  /** Reversal is an involution. */
  lemma RevRev(s: seq<bv8>)
    ensures Rev(Rev(s)) == s
  {
  }

  /** Concatenation of a sequence of byte strings. */
  function Flatten(parts: seq<seq<bv8>>): seq<bv8> {
    if |parts| == 0 then [] else parts[0] + Flatten(parts[1..])
  }

  /** Concatenation of byte strings with `sep` between neighbours. */
  function Join(parts: seq<seq<bv8>>, sep: seq<bv8>): seq<bv8> {
    if |parts| == 0 then []
    else if |parts| == 1 then parts[0]
    else parts[0] + sep + Join(parts[1..], sep)
  }
}
