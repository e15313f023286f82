/** Byte-order reversal (src/xtr_reverse.c). */
module Reverse {
  import opened Wrappers
  import opened Sizing
  import opened Bytes
  import opened Xtring

  /** `xtr_reversed`: a new xtring with the bytes in opposite order and no free
      space; None for NULL or a refused allocation. */
  function Reversed(x: Option<Xtring>, granted: bool): (r: Option<Xtring>)
    ensures r.Some? <==> x.Some? && granted
    ensures r.Some? ==> r.value.capacity == |r.value.content| == |x.value.content|
    ensures r.Some? ==> forall i :: 0 <= i < |x.value.content| ==>
                          r.value.content[i] == x.value.content[|x.value.content| - 1 - i]
  {
    if x.None? then None
    else
      match NewEnsure(|x.value.content|, granted)
      case None => None
      case Some(n) => Some(Xtr(n.capacity, Rev(x.value.content)))
  }

  /** Reversing twice gives back the content, in an xtring without free space. */
  lemma ReversedTwice(x: Option<Xtring>)
    requires x.Some?
    ensures Reversed(Reversed(x, true), true) == Some(Xtr(|x.value.content|, x.value.content))
  {
    RevRev(x.value.content);
  }

  function Swap(c: seq<bv8>, i: nat, j: nat): (r: seq<bv8>)
    requires i < |c| && j < |c|
    ensures |r| == |c| && r[i] == c[j] && r[j] == c[i]
    ensures forall k :: 0 <= k < |c| && k != i && k != j ==> r[k] == c[k]
  {
    c[i := c[j]][j := c[i]]
  }

  /** `xtr_reverse` as intended: the xtring reversed in place by swapping the
      two ends towards the middle. NULL is left alone. The source's loop runs
      over the whole length, undoing its own swaps (`ReverseAsWritten`). */
  method ReverseInPlace(x: Option<Xtring>) returns (r: Option<Xtring>)
    ensures r.Some? <==> x.Some?
    ensures r.Some? ==> r.value == Xtr(x.value.capacity, Rev(x.value.content))
  {
    if x.None? {
      return None;
    }
    var c := x.value.content;
    var buf := c;
    var s := 0;
    var e := |c|;
    while s + 1 < e
      invariant 0 <= s && s + e == |c| && s <= e
      invariant |buf| == |c|
      invariant forall k :: 0 <= k < s ==> buf[k] == c[|c| - 1 - k] && buf[|c| - 1 - k] == c[k]
      invariant forall k :: s <= k < e ==> buf[k] == c[k]
    {
      buf := Swap(buf, s, e - 1);
      s := s + 1;
      e := e - 1;
    }
    assert forall k :: 0 <= k < |c| ==> buf[k] == Rev(c)[k];
    return Some(Xtr(x.value.capacity, buf));
  }

  /** The swap loop of `xtr_reverse` as written, from index `s` on: it swaps
      `s` with its mirror for every `s` up to the length. */
  function SwapLoopAsWritten(c: seq<bv8>, s: nat): (r: seq<bv8>)
    requires s <= |c|
    ensures |r| == |c|
    decreases |c| - s
  {
    if s == |c| then c else SwapLoopAsWritten(Swap(c, s, |c| - 1 - s), s + 1)
  }

  /** `xtr_reverse` as written. */
  function ReverseAsWritten(x: Option<Xtring>): (r: Option<Xtring>)
    ensures r.Some? <==> x.Some?
    ensures r.Some? ==> r.value.capacity == x.value.capacity && |r.value.content| == |x.value.content|
  {
    if x.None? then None else Some(Xtr(x.value.capacity, SwapLoopAsWritten(x.value.content, 0)))
  }

  /** "ab" comes out of the code as written unchanged, because the second
      iteration swaps the pair back. */
  lemma ReverseAsWrittenUndoesItself()
    ensures ReverseAsWritten(Some(Xtr(2, [0x61, 0x62]))) == Some(Xtr(2, [0x61, 0x62]))
    ensures Rev([0x61, 0x62]) == [0x62, 0x61]
  {
    var ab: seq<bv8> := [0x61, 0x62];
    var ba: seq<bv8> := [0x62, 0x61];
    assert Swap(ab, 0, 1) == ba;
    assert Swap(ba, 1, 0) == ab;
    assert SwapLoopAsWritten(ab, 2) == ab;
    assert SwapLoopAsWritten(ba, 1) == SwapLoopAsWritten(ab, 2);
    assert SwapLoopAsWritten(ab, 0) == SwapLoopAsWritten(ba, 1);
  }
}
