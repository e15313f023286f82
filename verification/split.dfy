/** Splitting an xtring into a sequence of new xtrings (src/xtr_split.c):
    around every occurrence of a separator, or into fixed-size chunks. The
    chunk array is returned as a sequence; its length is the count the
    source writes through `amount_of_chunks`. */
module Split {
  import opened Wrappers
  import opened Sizing
  import opened Bytes
  import opened Xtring
  import opened MemSearch
  import Search
  import Access
  import Construct

  function Contents(xs: seq<Xtring>): (r: seq<seq<bv8>>)
    ensures |r| == |xs| && forall i :: 0 <= i < |xs| ==> r[i] == xs[i].content
  {
    seq(|xs|, i requires 0 <= i < |xs| => xs[i].content)
  }

  /** The pieces of `h[from..]` between the non-overlapping separator
      occurrences that `Search.MatchesFrom` lists: one more piece than
      occurrences. */
  function ChunksFrom(h: seq<bv8>, sep: seq<bv8>, from: nat): (r: seq<seq<bv8>>)
    requires |sep| > 0 && from <= |h|
    ensures |r| == |Search.MatchesFrom(h, sep, from)| + 1
    ensures forall i :: 0 <= i < |r| ==> |r[i]| <= |h| - from
    decreases |h| - from
  {
    match FirstMatchFrom(h, sep, from)
    case None => [h[from..]]
    case Some(p) => [h[from..p]] + ChunksFrom(h, sep, p + |sep|)
  }

  /** Where the `i`-th piece ends: at the next occurrence, or at the end.
      It starts where a scan resumes after the previous occurrence
      (`Search.ResumeAt`). */
  function CutStop(m: seq<nat>, len: nat, i: nat): nat
    requires i <= |m|
  {
    if i < |m| then m[i] else len
  }

  /** `pieces` are the bytes of `h[from..]` between the separator
      occurrences `Search.MatchesFrom` lists, piece `i` running from the end
      of occurrence `i - 1` to the start of occurrence `i`. */
  predicate CutAtMatches(h: seq<bv8>, sep: seq<bv8>, from: nat, pieces: seq<seq<bv8>>)
    requires |sep| > 0
  {
    var m := Search.MatchesFrom(h, sep, from);
    |pieces| == |m| + 1
    && forall i :: 0 <= i < |pieces| ==>
         Search.ResumeAt(m, |sep|, from, i) <= CutStop(m, |h|, i) <= |h|
         && pieces[i] == h[Search.ResumeAt(m, |sep|, from, i)..CutStop(m, |h|, i)]
  }

  /** The pieces are cut exactly at the listed occurrences. */
  lemma {:induction false} ChunksCutAtMatches(h: seq<bv8>, sep: seq<bv8>, from: nat)
    requires |sep| > 0 && from <= |h|
    ensures CutAtMatches(h, sep, from, ChunksFrom(h, sep, from))
    decreases |h| - from
  {
    var chunks := ChunksFrom(h, sep, from);
    var m := Search.MatchesFrom(h, sep, from);
    match FirstMatchFrom(h, sep, from)
    case None =>
      assert m == [] && chunks == [h[from..]];
      assert Search.ResumeAt(m, |sep|, from, 0) == from && CutStop(m, |h|, 0) == |h|;
    case Some(p) =>
      var next := p + |sep|;
      var rest := ChunksFrom(h, sep, next);
      var m' := Search.MatchesFrom(h, sep, next);
      assert chunks == [h[from..p]] + rest;
      assert m == [p] + m';
      ChunksCutAtMatches(h, sep, next);
      forall i | 0 <= i < |chunks|
        ensures Search.ResumeAt(m, |sep|, from, i) <= CutStop(m, |h|, i) <= |h|
        ensures chunks[i] == h[Search.ResumeAt(m, |sep|, from, i)..CutStop(m, |h|, i)]
      {
        if i > 0 {
          assert chunks[i] == rest[i - 1];
          assert Search.ResumeAt(m, |sep|, from, i) == Search.ResumeAt(m', |sep|, next, i - 1);
          assert CutStop(m, |h|, i) == CutStop(m', |h|, i - 1);
        }
      }
  }

  /** Joining the pieces with the separator gives back the bytes they were
      cut from. */
  lemma {:induction false} JoinChunks(h: seq<bv8>, sep: seq<bv8>, from: nat)
    requires |sep| > 0 && from <= |h|
    ensures Join(ChunksFrom(h, sep, from), sep) == h[from..]
    decreases |h| - from
  {
    match FirstMatchFrom(h, sep, from)
    case None =>
    case Some(p) =>
      var rest := ChunksFrom(h, sep, p + |sep|);
      JoinChunks(h, sep, p + |sep|);
      JoinCons(h[from..p], rest, sep);
      CutAtMatch(h, sep, from, p);
  }

  lemma JoinCons(a: seq<bv8>, rest: seq<seq<bv8>>, sep: seq<bv8>)
    requires |rest| > 0
    ensures Join([a] + rest, sep) == a + sep + Join(rest, sep)
  {
    assert ([a] + rest)[1..] == rest;
  }

  /** Bytes around a separator occurrence at `p` are the part before it, the
      separator, and the part after it. */
  lemma CutAtMatch(h: seq<bv8>, sep: seq<bv8>, from: nat, p: nat)
    requires from <= p && MatchAt(h, sep, p)
    ensures h[from..] == h[from..p] + sep + h[p + |sep|..]
  {
    assert h[from..] == h[from..p] + h[p..p + |sep|] + h[p + |sep|..];
  }

  /** No piece contains the separator: every occurrence was cut out. */
  lemma {:induction false} ChunksHoldNoSeparator(h: seq<bv8>, sep: seq<bv8>, from: nat)
    requires |sep| > 0 && from <= |h|
    ensures forall i, q :: 0 <= i < |ChunksFrom(h, sep, from)| ==> !MatchAt(ChunksFrom(h, sep, from)[i], sep, q)
    decreases |h| - from
  {
    var chunks := ChunksFrom(h, sep, from);
    var first := FirstMatchFrom(h, sep, from);
    var stop := if first.Some? then first.value else |h|;
    NoMatchBeforeFirst(h, sep, from, stop);
    assert chunks[0] == h[from..stop];
    if first.Some? {
      var next := first.value + |sep|;
      var tail := ChunksFrom(h, sep, next);
      ChunksHoldNoSeparator(h, sep, next);
      assert chunks == [chunks[0]] + tail;
      forall i, q | 0 <= i < |chunks| ensures !MatchAt(chunks[i], sep, q) {
        if i > 0 {
          assert chunks[i] == tail[i - 1];
        }
      }
    }
  }

  /** The bytes before the first occurrence hold no occurrence. */
  lemma NoMatchBeforeFirst(h: seq<bv8>, sep: seq<bv8>, from: nat, stop: nat)
    requires |sep| > 0 && from <= stop <= |h|
    requires stop == (if FirstMatchFrom(h, sep, from).Some? then FirstMatchFrom(h, sep, from).value else |h|)
    ensures forall q :: !MatchAt(h[from..stop], sep, q)
  {
    forall q: nat | MatchAt(h[from..stop], sep, q)
      ensures false
    {
      assert h[from..stop][q..q + |sep|] == h[from + q..from + q + |sep|];
      assert MatchAt(h, sep, from + q);
    }
  }

  /** The chunks as new xtrings of exactly their length. */
  function AsXtrings(chunks: seq<seq<bv8>>): (r: seq<Xtring>)
    requires forall i :: 0 <= i < |chunks| ==> |chunks[i]| <= MAX_CAPACITY
    ensures Contents(r) == chunks
    ensures forall i :: 0 <= i < |r| ==> r[i].capacity == |chunks[i]|
  {
    seq(|chunks|, i requires 0 <= i < |chunks| => Xtr(|chunks[i]|, chunks[i]))
  }

  /** `xtr_split`: the pieces of the haystack around every non-overlapping
      occurrence of the separator, left to right. A NULL count pointer
      (`countOut` false), a NULL input or a refused allocation gives None (the
      source releases every chunk made so far); with no occurrence the single
      chunk is a clone of the haystack. The occurrence list comes from
      `xtr_find_all`, which is not part of this model: it is taken to list the
      offsets `Search.Occurrences` counts. Lines 62, 69 and 77 of the source
      do not compile (an undefined `start` and a `rollback;` label); the model
      cuts each piece where the surrounding code computes it. */
  function Split(countOut: bool, hay: Option<Xtring>, sep: Option<Xtring>, granted: bool): (r: Option<seq<Xtring>>)
    ensures r.Some? <==> countOut && hay.Some? && sep.Some? && granted
    ensures r.Some? ==> |r.value| == Search.Occurrences(hay, sep) + 1
    ensures r.Some? && |sep.value.content| > 0 ==> Join(Contents(r.value), sep.value.content) == hay.value.content
    ensures r.Some? && Search.Occurrences(hay, sep) == 0 ==> r.value == [hay.value]
    ensures r.Some? && |sep.value.content| > 0 ==>
              CutAtMatches(hay.value.content, sep.value.content, 0, Contents(r.value))
  {
    if !countOut || hay.None? || sep.None? then None
    else if Search.Occurrences(hay, sep) == 0 then
      UncutWithoutMatch(hay, sep);
      match Construct.Clone(hay, granted)
      case None => None
      case Some(c) => Some([c])
    else if !granted then None
    else
      var h := hay.value.content;
      var s := sep.value.content;
      JoinChunks(h, s, 0);
      ChunksCutAtMatches(h, s, 0);
      Some(AsXtrings(ChunksFrom(h, s, 0)))
  }

  /** With no occurrence the only piece is the whole haystack. */
  lemma UncutWithoutMatch(hay: Option<Xtring>, sep: Option<Xtring>)
    requires hay.Some? && sep.Some? && Search.Occurrences(hay, sep) == 0
    ensures |sep.value.content| > 0 ==> CutAtMatches(hay.value.content, sep.value.content, 0, [hay.value.content])
  {
    var h := hay.value.content;
    var s := sep.value.content;
    if |s| > 0 {
      var m := Search.MatchesFrom(h, s, 0);
      assert m == [];
      assert h[Search.ResumeAt(m, |s|, 0, 0)..CutStop(m, |h|, 0)] == h;
    }
  }

  /** "a,,b" split at "," gives "a", "" and "b". */
  lemma SplitExample()
    ensures var r := Split(true, Some(Xtr(4, [0x61, 0x2C, 0x2C, 0x62])), Some(Xtr(1, [0x2C])), true);
            r.Some? && Contents(r.value) == [[0x61], [], [0x62]]
  {
    var h: seq<bv8> := [0x61, 0x2C, 0x2C, 0x62];
    var s: seq<bv8> := [0x2C];
    assert h[0..1] == [0x61] && h[1..2] == s && h[2..3] == s && h[3..4] == [0x62];
    assert !MatchAt(h, s, 0) && MatchAt(h, s, 1) && MatchAt(h, s, 2) && !MatchAt(h, s, 3);
    assert h[3..] == [0x62] && h[2..2] == [] && h[0..1] == [0x61];
    assert FirstMatchFrom(h, s, 4).None?;
    assert FirstMatchFrom(h, s, 3).None?;
    assert FirstMatchFrom(h, s, 2) == Some(2);
    assert FirstMatchFrom(h, s, 0) == Some(1);
    assert ChunksFrom(h, s, 3) == [[0x62]];
    assert ChunksFrom(h, s, 2) == [[]] + [[0x62]];
    assert ChunksFrom(h, s, 0) == [h[0..1]] + ChunksFrom(h, s, 2);
    assert ChunksFrom(h, s, 0) == [[0x61], [], [0x62]];
    assert Search.MatchesFrom(h, s, 0) == [1, 2];
  }

  /** `c` cut into pieces of `k` bytes, the last one possibly shorter. Their
      number `m` is `ceil(|c| / k)`: the one with `(m - 1) * k < |c| <= m * k`. */
  function ChunksOf(c: seq<bv8>, k: nat): (r: seq<seq<bv8>>)
    requires k > 0 && |c| > 0
    ensures |r| > 0 && Flatten(r) == c
    ensures forall i :: 0 <= i < |r| - 1 ==> |r[i]| == k
    ensures 0 < |r[|r| - 1]| <= k
    ensures (|r| - 1) * k < |c| <= |r| * k
    decreases |c|
  {
    if |c| <= k then
      assert Flatten([c]) == c + [];
      [c]
    else
      var rest := ChunksOf(c[k..], k);
      assert ([c[..k]] + rest)[1..] == rest;
      assert c == c[..k] + c[k..];
      MulSucc(|rest|, k);
      MulSucc(|rest| - 1, k);
      [c[..k]] + rest
  }

  /** Arithmetic helpers for the chunk count; they state nothing about
      the source on their own. */
  lemma MulSucc(m: int, k: int)
    ensures (m + 1) * k == m * k + k
  {
  }

  lemma DivSmall(x: nat, k: nat)
    requires x < k
    ensures x / k == 0
  {
  }

  lemma DivLower(a: nat, k: nat)
    requires k > 0
    ensures (a / k) * k > a - k
  {
    assert a == (a / k) * k + a % k;
  }

  /** The source's overflow test for the chunk count: it computes
      `(used + k - 1) / k` in `size_t` and rejects when that count times `k`
      falls below `used`, which happens exactly when the sum wraps. */
  lemma {:induction false} ChunkCountWrapIsExact(used: Size, k: Size)
    requires 0 < used && 0 < k
    ensures (Wrap(used + k - 1) / k) * k < used <==> used + k - 1 > SIZE_MAX
  {
    var a := used + k - 1;
    if a > SIZE_MAX {
      assert Wrap(a) == a - (SIZE_MAX + 1);
      DivSmall(Wrap(a), k);
    } else {
      assert Wrap(a) == a;
      DivLower(a, k);
    }
  }

  /** `xtr_split_every`: the content cut into `chunkLen`-byte xtrings, the
      last one possibly shorter. None for a NULL or empty xtring, a zero chunk
      length, a chunk count that does not fit, or a refused allocation. The
      source never stores the chunks it makes and cuts the last one from
      offset `used - chunk_len` (`LastChunkAsWritten`); the model stores the
      chunks in order. */
  function SplitEvery(x: Option<Xtring>, chunkLen: Size, granted: bool): (r: Option<seq<Xtring>>)
    ensures r.Some? <==> !Access.IsEmpty(x) && chunkLen > 0 && |x.value.content| + chunkLen - 1 <= SIZE_MAX && granted
    ensures r.Some? ==> (|r.value| - 1) * chunkLen < |x.value.content| <= |r.value| * chunkLen
    ensures r.Some? ==> Flatten(Contents(r.value)) == x.value.content
    ensures r.Some? ==> forall i :: 0 <= i < |r.value| - 1 ==> |r.value[i].content| == chunkLen
    ensures r.Some? ==> 0 < |r.value[|r.value| - 1].content| <= chunkLen
  {
    if Access.IsEmpty(x) || chunkLen == 0 then None
    else
      var used := |x.value.content|;
      ChunkCountWrapIsExact(used, chunkLen);
      if (Wrap(used + chunkLen - 1) / chunkLen) * chunkLen < used then None
      else if !granted then None
      else
        Some(AsXtrings(ChunksOf(x.value.content, chunkLen)))
  }

  /** The last chunk `xtr_split_every` makes, as written: `min(k, rest)`
      bytes taken from offset `used - k`. */
  function LastChunkAsWritten(c: seq<bv8>, k: nat): (r: seq<bv8>)
    requires 0 < k <= |c|
    ensures |r| <= k
  {
    var full := (|c| + k - 1) / k - 1;
    var rest := Min(k, |c| - full * k);
    c[|c| - k..|c| - k + rest]
  }

  /** "abc" in chunks of 2: the last chunk is "c", but the code as written
      cuts "b". */
  lemma LastChunkExample()
    ensures LastChunkAsWritten([0x61, 0x62, 0x63], 2) == [0x62]
    ensures var r := SplitEvery(Some(Xtr(3, [0x61, 0x62, 0x63])), 2, true);
            r.Some? && Contents(r.value) == [[0x61, 0x62], [0x63]]
  {
    var abc: seq<bv8> := [0x61, 0x62, 0x63];
    assert abc[1..2] == [0x62];
    assert abc[2..] == [0x63];
    assert abc[..2] == [0x61, 0x62];
    assert ChunksOf(abc, 2) == [[0x61, 0x62], [0x63]];
  }
}
