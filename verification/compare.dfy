/** Comparisons between two xtrings (src/xtr_cmp.c) and the documented prefix
    and suffix tests (`xtr_startswith`, `xtr_endswith`). Two NULLs compare
    equal; a NULL is below every xtring. */
module Compare {
  import opened Wrappers
  import opened Sizing
  import opened Xtring
  import Access

  /** Both NULL, or both present with the same content. */
  predicate SameContent(a: Option<Xtring>, b: Option<Xtring>) {
    (a.None? && b.None?) || (a.Some? && b.Some? && a.value.content == b.value.content)
  }

  /** `xtr_cmp_length`: 0 on equal length, -1/+1 when only `a`/`b` is NULL,
      -2/+2 when `a` is shorter/longer. */
  function CmpLength(a: Option<Xtring>, b: Option<Xtring>): (r: int)
    ensures r == 0 <==> (a.None? && b.None?) || (a.Some? && b.Some? && |a.value.content| == |b.value.content|)
    ensures r == -1 <==> a.None? && b.Some?
    ensures r == 1 <==> a.Some? && b.None?
    ensures r == -2 <==> a.Some? && b.Some? && |a.value.content| < |b.value.content|
    ensures r == 2 <==> a.Some? && b.Some? && |a.value.content| > |b.value.content|
  {
    if a == b then 0
    else if a.None? then -1
    else if b.None? then 1
    else if |a.value.content| < |b.value.content| then -2
    else if |a.value.content| > |b.value.content| then 2
    else 0
  }

  lemma CmpLengthAntisymmetric(a: Option<Xtring>, b: Option<Xtring>)
    ensures CmpLength(b, a) == -CmpLength(a, b)
  {
  }

  /** `xtr_is_equal_length`. */
  function IsEqualLength(a: Option<Xtring>, b: Option<Xtring>): (r: bool)
    ensures r <==> (a.None? && b.None?) || (a.Some? && b.Some? && Access.Length(a) == Access.Length(b))
  {
    CmpLength(a, b) == 0
  }

  /** The sign of `memcmp` over two equally long byte strings, bytes compared
      as unsigned. */
  function MemCmp(a: seq<bv8>, b: seq<bv8>): (r: int)
    requires |a| == |b|
    ensures -1 <= r <= 1
    ensures r == 0 <==> a == b
  {
    if |a| == 0 then 0
    else if a[0] < b[0] then -1
    else if a[0] > b[0] then 1
    else
      var rest := MemCmp(a[1..], b[1..]);
      assert a == [a[0]] + a[1..] && b == [b[0]] + b[1..];
      rest
  }

  /** `memcmp` is decided by the first differing byte. */
  lemma {:induction false} MemCmpFirstDifference(a: seq<bv8>, b: seq<bv8>, i: nat)
    requires |a| == |b| && i < |a| && a[..i] == b[..i] && a[i] != b[i]
    ensures MemCmp(a, b) == if a[i] < b[i] then -1 else 1
  {
    if i > 0 {
      assert a[0] == a[..i][0] && b[0] == b[..i][0];
      assert a[1..][..i - 1] == a[..i][1..];
      assert b[1..][..i - 1] == b[..i][1..];
      MemCmpFirstDifference(a[1..], b[1..], i - 1);
    }
  }

  lemma {:induction false} MemCmpAntisymmetric(a: seq<bv8>, b: seq<bv8>)
    requires |a| == |b|
    ensures MemCmp(b, a) == -MemCmp(a, b)
  {
    if |a| > 0 && a[0] == b[0] {
      MemCmpAntisymmetric(a[1..], b[1..]);
    }
  }

  /** `xtr_cmp`: 0 for equal content, -1/+1 for a NULL side, -2/+2 when one
      content is a proper prefix of the other, -3/+3 when the first differing
      byte is lower/higher in `a`. */
  function Cmp(a: Option<Xtring>, b: Option<Xtring>): (r: int)
    ensures r == 0 <==> SameContent(a, b)
    ensures r == -1 <==> a.None? && b.Some?
    ensures r == 1 <==> a.Some? && b.None?
    ensures r == -2 <==> a.Some? && b.Some? && |a.value.content| < |b.value.content|
                         && a.value.content == b.value.content[..|a.value.content|]
    ensures r == 2 <==> a.Some? && b.Some? && |a.value.content| > |b.value.content|
                         && b.value.content == a.value.content[..|b.value.content|]
    ensures r in {-3, -2, -1, 0, 1, 2, 3}
  {
    if a == b then 0
    else if a.None? then -1
    else if b.None? then 1
    else
      var x := a.value.content;
      var y := b.value.content;
      var m := Min(|x|, |y|);
      var c := MemCmp(x[..m], y[..m]);
      if c == 0 then
        (if |x| < |y| then -2 else if |x| > |y| then 2 else assert x == x[..m] && y == y[..m]; 0)
      else 3 * c
  }

  /** Content that differs first at `i` compares by that byte, as the -3/+3
      codes are documented. */
  lemma CmpFirstDifference(a: Option<Xtring>, b: Option<Xtring>, i: nat)
    requires a.Some? && b.Some? && i < |a.value.content| && i < |b.value.content|
    requires a.value.content[..i] == b.value.content[..i] && a.value.content[i] != b.value.content[i]
    ensures Cmp(a, b) == if a.value.content[i] < b.value.content[i] then -3 else 3
  {
    var x := a.value.content;
    var y := b.value.content;
    var m := Min(|x|, |y|);
    assert x[..m][..i] == x[..i] && y[..m][..i] == y[..i];
    MemCmpFirstDifference(x[..m], y[..m], i);
  }

  /** Swapping the operands negates the result, so `Cmp` orders xtrings. */
  lemma CmpAntisymmetric(a: Option<Xtring>, b: Option<Xtring>)
    ensures Cmp(b, a) == -Cmp(a, b)
  {
    if a.Some? && b.Some? {
      var x := a.value.content;
      var y := b.value.content;
      var m := Min(|x|, |y|);
      MemCmpAntisymmetric(x[..m], y[..m]);
    }
  }

  /** `xtr_is_equal`: same length and content, or both NULL. */
  function IsEqual(a: Option<Xtring>, b: Option<Xtring>): (r: bool)
    ensures r <==> SameContent(a, b)
    ensures r <==> Cmp(a, b) == 0
  {
    if a == b then true
    else if a.None? || b.None? then false
    else if |a.value.content| != |b.value.content| then false
    else MemCmp(a.value.content, b.value.content) == 0
  }

  /** `xtr_is_equal_consttime` as documented: the same answer as `IsEqual`,
      scanning every byte of equally long contents. */
  method IsEqualConsttime(a: Option<Xtring>, b: Option<Xtring>) returns (r: bool)
    ensures r == IsEqual(a, b)
  {
    if a == b {
      return true;
    }
    if a.None? || b.None? {
      return false;
    }
    var x := a.value.content;
    var y := b.value.content;
    if |x| != |y| {
      return false;
    }
    var differing := false;
    var i := 0;
    while i < |x|
      invariant 0 <= i <= |x|
      invariant differing <==> x[..i] != y[..i]
    {
      assert x[..i + 1] == x[..i] + [x[i]] && y[..i + 1] == y[..i] + [y[i]];
      differing := differing || x[i] != y[i];
      i := i + 1;
    }
    assert x[..i] == x && y[..i] == y;
    return !differing;
  }

  /** Some position holds the same byte in both. */
  predicate AnyPositionEqual(x: seq<bv8>, y: seq<bv8>)
    requires |x| == |y|
  {
    exists i :: 0 <= i < |x| && x[i] == y[i]
  }

  lemma AnyPositionEqualAt(x: seq<bv8>, y: seq<bv8>, i: nat)
    requires |x| == |y| && i < |x| && x[i] == y[i]
    ensures AnyPositionEqual(x, y)
  {
  }

  /** `xtr_is_equal_consttime` as written: line 91 accumulates `==` instead of
      `!=`, so equally long contents are reported equal exactly when no
      position holds the same byte. */
  function IsEqualConsttimeAsWritten(a: Option<Xtring>, b: Option<Xtring>): (r: bool)
    ensures a.Some? && b.Some? && a != b && |a.value.content| == |b.value.content| ==>
              (r <==> !AnyPositionEqual(a.value.content, b.value.content))
  {
    if a == b then true
    else if a.None? || b.None? then false
    else if |a.value.content| != |b.value.content| then false
    else !AnyPositionEqual(a.value.content, b.value.content)
  }

  /** Two distinct xtrings both holding "a" are reported different by the code
      as written, and "a" against "b" is reported equal. */
  lemma IsEqualConsttimeInverted()
    ensures !IsEqualConsttimeAsWritten(Some(Xtr(1, [0x61])), Some(Xtr(5, [0x61])))
    ensures IsEqual(Some(Xtr(1, [0x61])), Some(Xtr(5, [0x61])))
    ensures IsEqualConsttimeAsWritten(Some(Xtr(1, [0x61])), Some(Xtr(1, [0x62])))
    ensures !IsEqual(Some(Xtr(1, [0x61])), Some(Xtr(1, [0x62])))
  {
    AnyPositionEqualAt([0x61], [0x61], 0);
  }

  /** `xtr_startswith` as documented: both NULL, or `prefix` is a leading part
      of the content. */
  function StartsWith(x: Option<Xtring>, prefix: Option<Xtring>): (r: bool)
    ensures x.None? || prefix.None? ==> (r <==> x.None? && prefix.None?)
    ensures x.Some? && prefix.Some? ==>
              (r <==> exists rest: seq<bv8> :: x.value.content == prefix.value.content + rest)
  {
    if x.None? || prefix.None? then x.None? && prefix.None?
    else
      var c := x.value.content;
      var p := prefix.value.content;
      var ok := |p| <= |c| && c[..|p|] == p;
      assert ok ==> c == p + c[|p|..];
      ok
  }

  /** `xtr_endswith` as documented: both NULL, or `suffix` is a trailing part
      of the content. */
  function EndsWith(x: Option<Xtring>, suffix: Option<Xtring>): (r: bool)
    ensures x.None? || suffix.None? ==> (r <==> x.None? && suffix.None?)
    ensures x.Some? && suffix.Some? ==>
              (r <==> exists rest: seq<bv8> :: x.value.content == rest + suffix.value.content)
  {
    if x.None? || suffix.None? then x.None? && suffix.None?
    else
      var c := x.value.content;
      var s := suffix.value.content;
      var ok := |s| <= |c| && c[|c| - |s|..] == s;
      assert ok ==> c == c[..|c| - |s|] + s;
      ok
  }

  /** The header's examples: "abcdef" starts with "abc" and ends with "def",
      not with "fed", and a longer operand never matches. */
  lemma PrefixSuffixExamples()
    ensures StartsWith(Some(Xtr(6, [0x61, 0x62, 0x63, 0x64, 0x65, 0x66])), Some(Xtr(3, [0x61, 0x62, 0x63])))
    ensures EndsWith(Some(Xtr(6, [0x61, 0x62, 0x63, 0x64, 0x65, 0x66])), Some(Xtr(3, [0x64, 0x65, 0x66])))
    ensures !EndsWith(Some(Xtr(6, [0x61, 0x62, 0x63, 0x64, 0x65, 0x66])), Some(Xtr(3, [0x66, 0x65, 0x64])))
    ensures !StartsWith(Some(Xtr(3, [0x61, 0x62, 0x63])), Some(Xtr(6, [0x61, 0x62, 0x63, 0x64, 0x65, 0x66])))
    ensures StartsWith(None, None) && !StartsWith(None, Some(Xtr(0, [])))
  {
  }

  /** Every xtring starts and ends with itself. */
  lemma StartsWithSelf(x: Option<Xtring>)
    ensures StartsWith(x, x) && EndsWith(x, x)
  {
    if x.Some? {
      assert x.value.content == x.value.content + [];
      assert x.value.content == [] + x.value.content;
    }
  }
}
