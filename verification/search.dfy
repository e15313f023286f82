/** Substring search (src/xtr_search.c). Positions are offsets into the
    content; `NOT_FOUND` (SIZE_MAX) stands for the NULL pointer the source
    returns, as the header documents it. */
module Search {
  import opened Wrappers
  import opened Sizing
  import opened Xtring
  import opened MemSearch
  import Access

  /** `needle` occurs at `p`, entirely inside `[start, end)`. */
  predicate MatchWithin(hay: seq<bv8>, needle: seq<bv8>, p: nat, start: nat, end: nat) {
    start <= p && p + |needle| <= end && MatchAt(hay, needle, p)
  }

  /** The argument combinations `xtr_find_in` rejects as out of range, with
      the end bound as intended: `end` may be the length itself. */
  predicate FindRejects(hay: Option<Xtring>, needle: Option<Xtring>, start: Size, end: Size) {
    Access.IsEmpty(hay) || Access.IsEmpty(needle)
    || start >= |hay.value.content| || end > |hay.value.content| || start >= end
  }

  /** `xtr_find_in` (`xtr_find_within` in inc/xtr.h): the first offset in
      `[start, end)` where the needle occurs entirely inside the range.
      Line 53 of the source rejects `end >= used`, which excludes the
      `end = used` that `xtr_find` and `xtr_find_from` pass
      (`FindInAsWritten`); the model rejects `end > used`. */
  function FindIn(hay: Option<Xtring>, needle: Option<Xtring>, start: Size, end: Size): (r: Size)
    ensures FindRejects(hay, needle, start, end) ==> r == NOT_FOUND
    ensures r != NOT_FOUND ==> MatchWithin(hay.value.content, needle.value.content, r, start, end)
    ensures r != NOT_FOUND ==> forall q :: start <= q < r ==> !MatchWithin(hay.value.content, needle.value.content, q, start, end)
    ensures !FindRejects(hay, needle, start, end) && r == NOT_FOUND ==>
              forall q :: !MatchWithin(hay.value.content, needle.value.content, q, start, end)
  {
    if FindRejects(hay, needle, start, end) then NOT_FOUND
    else
      var h := hay.value.content;
      var n := needle.value.content;
      WindowSearch(h, n, start, end);
      match FirstMatchFrom(h[start..end], n, 0)
      case None => NOT_FOUND
      case Some(p) => start + p
  }

  /** A match inside the window `h[start..end]` is a match of `h` inside
      `[start, end)`, shifted by `start`. */
  lemma WindowMatch(h: seq<bv8>, n: seq<bv8>, start: nat, end: nat, q: nat)
    requires start <= q && start <= end <= |h|
    ensures MatchAt(h[start..end], n, q - start) <==> MatchWithin(h, n, q, start, end)
  {
    if q + |n| <= end {
      var w := h[start..end];
      var a := w[q - start..q - start + |n|];
      var b := h[q..q + |n|];
      assert |a| == |b|;
      forall i | 0 <= i < |n|
        ensures a[i] == b[i]
      {
        assert a[i] == w[q - start + i] == h[q + i];
      }
      assert a == b;
    }
  }

  /** Searching the window finds the first match within the range. */
  lemma WindowSearch(h: seq<bv8>, n: seq<bv8>, start: nat, end: nat)
    requires start <= end <= |h|
    ensures var r := FirstMatchFrom(h[start..end], n, 0);
            (r.Some? ==> MatchWithin(h, n, start + r.value, start, end))
            && (r.Some? ==> forall q :: start <= q < start + r.value ==> !MatchWithin(h, n, q, start, end))
            && (r.None? ==> forall q :: !MatchWithin(h, n, q, start, end))
  {
    var r := FirstMatchFrom(h[start..end], n, 0);
    if r.Some? {
      WindowMatch(h, n, start, end, start + r.value);
    }
    forall q: nat | start <= q && (r.None? || q < start + r.value)
      ensures !MatchWithin(h, n, q, start, end)
    {
      WindowMatch(h, n, start, end, q);
    }
  }

  /** `xtr_find_in` as written: its guard rejects every `end >= used`. */
  function FindInAsWritten(hay: Option<Xtring>, needle: Option<Xtring>, start: Size, end: Size): (r: Size)
    ensures hay.Some? && end >= |hay.value.content| ==> r == NOT_FOUND
  {
    if Access.IsEmpty(hay) || Access.IsEmpty(needle) || start >= |hay.value.content| || end >= |hay.value.content|
    then NOT_FOUND
    else FindIn(hay, needle, start, end)
  }

  /** `xtr_find`: the first occurrence anywhere in the content. The source
      reads `used` of a NULL haystack; the model gives NOT_FOUND. */
  function Find(hay: Option<Xtring>, needle: Option<Xtring>): (r: Size)
    ensures Access.IsEmpty(hay) || Access.IsEmpty(needle) ==> r == NOT_FOUND
    ensures r != NOT_FOUND ==>
              (!Access.IsEmpty(hay) && !Access.IsEmpty(needle)
               && MatchAt(hay.value.content, needle.value.content, r)
               && forall q :: 0 <= q < r ==> !MatchAt(hay.value.content, needle.value.content, q))
    ensures r == NOT_FOUND && !Access.IsEmpty(hay) && !Access.IsEmpty(needle) ==>
              forall q :: !MatchAt(hay.value.content, needle.value.content, q)
  {
    FindFrom(hay, needle, 0)
  }

  /** `xtr_find_from`: the first occurrence at or after `start`. */
  function FindFrom(hay: Option<Xtring>, needle: Option<Xtring>, start: Size): (r: Size)
    ensures r != NOT_FOUND ==>
              (!Access.IsEmpty(hay) && !Access.IsEmpty(needle)
               && start <= r && MatchAt(hay.value.content, needle.value.content, r)
               && forall q :: start <= q < r ==> !MatchAt(hay.value.content, needle.value.content, q))
    ensures r == NOT_FOUND && !Access.IsEmpty(hay) && !Access.IsEmpty(needle) && start < |hay.value.content| ==>
              forall q :: start <= q ==> !MatchAt(hay.value.content, needle.value.content, q)
  {
    WholeRange(hay, needle, start);
    FindIn(hay, needle, start, Access.Length(hay))
  }

  /** A match within `[start, used)` is any match at or after `start`. */
  lemma WholeRange(hay: Option<Xtring>, needle: Option<Xtring>, start: nat)
    ensures hay.Some? && needle.Some? ==>
              forall q :: MatchWithin(hay.value.content, needle.value.content, q, start, |hay.value.content|)
                      <==> start <= q && MatchAt(hay.value.content, needle.value.content, q)
  {
  }

  /** With the guard as written, `xtr_find` can never succeed; "b" is found
      at offset 1 of "abc" as intended. */
  lemma FindAsWrittenNeverFinds(hay: Option<Xtring>, needle: Option<Xtring>)
    ensures FindInAsWritten(hay, needle, 0, Access.Length(hay)) == NOT_FOUND
    ensures Find(Some(Xtr(3, [0x61, 0x62, 0x63])), Some(Xtr(1, [0x62]))) == 1
  {
    FindExample();
  }

  lemma FindExample()
    ensures Find(Some(Xtr(3, [0x61, 0x62, 0x63])), Some(Xtr(1, [0x62]))) == 1
  {
    var abc: seq<bv8> := [0x61, 0x62, 0x63];
    var b: seq<bv8> := [0x62];
    var hay, needle := Some(Xtr(3, abc)), Some(Xtr(1, b));
    assert abc[1..2] == b;
    assert MatchWithin(abc, b, 1, 0, 3);
    assert abc[0..1] == [0x61];
    assert !MatchWithin(abc, b, 0, 0, 3);
    assert !FindRejects(hay, needle, 0, 3);
    var r := FindIn(hay, needle, 0, 3);
    assert r != NOT_FOUND;
    assert r == 1;
  }

  /** `Find` returns the first match in the whole content, or NOT_FOUND when
      there is none; and NOT_FOUND is no offset of any xtring. */
  lemma FindIsFirstMatch(hay: Option<Xtring>, needle: Option<Xtring>)
    requires !Access.IsEmpty(hay) && !Access.IsEmpty(needle)
    ensures Find(hay, needle) != NOT_FOUND <==> exists p :: MatchAt(hay.value.content, needle.value.content, p)
    ensures Find(hay, needle) != NOT_FOUND ==> Find(hay, needle) < |hay.value.content|
  {
  }

  /** `xtr_contains`: the needle occurs somewhere; false for NULL or empty
      inputs. */
  function Contains(hay: Option<Xtring>, needle: Option<Xtring>): (r: bool)
    ensures r <==> Find(hay, needle) != NOT_FOUND
    ensures r ==> MatchAt(hay.value.content, needle.value.content, Find(hay, needle))
  {
    FindIn(hay, needle, 0, Access.Length(hay)) != NOT_FOUND
  }

  /** Offsets of the non-overlapping occurrences at or after `from`, left to
      right, each search resuming after the previous match. */
  function MatchesFrom(hay: seq<bv8>, needle: seq<bv8>, from: nat): (r: seq<nat>)
    requires |needle| > 0
    ensures forall i :: 0 <= i < |r| ==> from <= r[i] && MatchAt(hay, needle, r[i])
    ensures forall i :: 0 < i < |r| ==> r[i - 1] + |needle| <= r[i]
    decreases |hay| - from
  {
    match FirstMatchFrom(hay, needle, from)
    case None => []
    case Some(p) => [p] + MatchesFrom(hay, needle, p + |needle|)
  }

  /** The `i`-th listed match, `n` bytes long, covers offset `q`. */
  predicate Covers(r: seq<nat>, i: nat, n: nat, q: nat)
    requires i < |r|
  {
    r[i] <= q < r[i] + n
  }

  /** No occurrence is missed: every match at or after `from` starts inside
      one of the listed matches, so none lies in a gap between them. */
  lemma {:induction false} MatchesFromComplete(hay: seq<bv8>, needle: seq<bv8>, from: nat, q: nat)
    requires |needle| > 0 && from <= q && MatchAt(hay, needle, q)
    ensures exists i :: 0 <= i < |MatchesFrom(hay, needle, from)| && Covers(MatchesFrom(hay, needle, from), i, |needle|, q)
    decreases |hay| - from
  {
    var r := MatchesFrom(hay, needle, from);
    var p := FirstMatchFrom(hay, needle, from).value;
    var rest := MatchesFrom(hay, needle, p + |needle|);
    assert r == [p] + rest;
    assert p <= q;
    if q < p + |needle| {
      assert Covers(r, 0, |needle|, q);
    } else {
      MatchesFromComplete(hay, needle, p + |needle|, q);
      var i :| 0 <= i < |rest| && Covers(rest, i, |needle|, q);
      assert r[i + 1] == rest[i];
      assert Covers(r, i + 1, |needle|, q);
    }
  }

  /** Non-overlapping matches fit in the haystack side by side. */
  lemma {:induction false} MatchesFit(hay: seq<bv8>, needle: seq<bv8>, from: nat)
    requires |needle| > 0 && from <= |hay|
    ensures from + |MatchesFrom(hay, needle, from)| * |needle| <= |hay|
    decreases |hay| - from
  {
    var first := FirstMatchFrom(hay, needle, from);
    if first.Some? {
      var p := first.value;
      var rest := MatchesFrom(hay, needle, p + |needle|);
      assert MatchesFrom(hay, needle, from) == [p] + rest;
      MatchesFit(hay, needle, p + |needle|);
      CountStep(from, p, |rest|, |needle|, |hay|);
    }
  }

  lemma CountStep(from: nat, p: nat, k: nat, n: nat, bound: nat)
    requires from <= p && p + n + k * n <= bound
    ensures from + (1 + k) * n <= bound
  {
    assert (1 + k) * n == n + k * n;
  }

  /** `xtr_occurrences`: how many non-overlapping occurrences a left-to-right
      scan finds; 0 for NULL or empty inputs (the header promises NOT_FOUND
      for NULL; the code returns 0). Line 81 of the source shrinks the
      remaining length by the wrong amount; the model resumes right after
      each match, as the scan intends (`OccurrencesScan`). */
  function Occurrences(hay: Option<Xtring>, needle: Option<Xtring>): (r: Size)
    ensures Access.IsEmpty(hay) || Access.IsEmpty(needle) ==> r == 0
    ensures !Access.IsEmpty(hay) && !Access.IsEmpty(needle) ==>
              r == |MatchesFrom(hay.value.content, needle.value.content, 0)|
    ensures !Access.IsEmpty(needle) ==> r * |needle.value.content| <= Access.Length(hay)
  {
    if Access.IsEmpty(hay) || Access.IsEmpty(needle) then 0
    else
      var matches := MatchesFrom(hay.value.content, needle.value.content, 0);
      MatchesFit(hay.value.content, needle.value.content, 0);
      assert |matches| * |needle.value.content| <= |hay.value.content|;
      |matches|
  }

  /** There are occurrences exactly when the needle is contained. */
  lemma OccurrencesIffContains(hay: Option<Xtring>, needle: Option<Xtring>)
    ensures Occurrences(hay, needle) > 0 <==> Contains(hay, needle)
  {
    if !Access.IsEmpty(hay) && !Access.IsEmpty(needle) {
      FindIsFirstMatch(hay, needle);
      var h := hay.value.content;
      var n := needle.value.content;
      if Contains(hay, needle) {
        assert MatchAt(h, n, Find(hay, needle));
        assert FirstMatchFrom(h, n, 0).Some?;
      }
    }
  }

  /** The length of the window left after a match that starts `gap` bytes
      into a window of `remaining` bytes, resuming right after the match: the
      new window still ends exactly where the content ends. */
  function OccurrencesRemaining(remaining: Size, gap: Size, n: Size): (r: Size)
    requires gap + n <= remaining
    ensures gap + n + r == remaining
    ensures r < remaining || n == 0
  {
    remaining - gap - n
  }

  /** The first match in the suffix from `prev` is the first match of the
      whole content at or after `prev`, shifted by `prev`. */
  lemma FirstMatchInSuffix(h: seq<bv8>, n: seq<bv8>, prev: nat)
    requires prev <= |h|
    ensures FirstMatchFrom(h[prev..], n, 0).None? <==> FirstMatchFrom(h, n, prev).None?
    ensures FirstMatchFrom(h[prev..], n, 0).Some? ==>
              FirstMatchFrom(h, n, prev) == Some(prev + FirstMatchFrom(h[prev..], n, 0).value)
  {
    assert h[prev..] == h[prev..|h|];
    WindowSearch(h, n, prev, |h|);
    var w := FirstMatchFrom(h[prev..], n, 0);
    var a := FirstMatchFrom(h, n, prev);
    if a.Some? {
      assert MatchWithin(h, n, a.value, prev, |h|);
    }
  }

  /** Where a left-to-right scan from `from` resumes after the `i`-th of the
      matches `m` of an `n`-byte needle: at `from` before the first, just
      after match `i - 1` otherwise. */
  function ResumeAt(m: seq<nat>, n: nat, from: nat, i: nat): nat
    requires i <= |m|
  {
    if i == 0 then from else m[i - 1] + n
  }

  /** Resuming after the `k`-th listed match, the first match is the next
      listed one, and there is none after the last. */
  lemma {:induction false} MatchesFromResume(h: seq<bv8>, n: seq<bv8>, from: nat, k: nat)
    requires |n| > 0 && k <= |MatchesFrom(h, n, from)|
    ensures var m := MatchesFrom(h, n, from);
            FirstMatchFrom(h, n, ResumeAt(m, |n|, from, k)) == (if k < |m| then Some(m[k]) else None)
    decreases |h| - from
  {
    var m := MatchesFrom(h, n, from);
    match FirstMatchFrom(h, n, from)
    case None =>
      assert m == [] && k == 0;
    case Some(p) =>
      var rest := MatchesFrom(h, n, p + |n|);
      assert m == [p] + rest;
      if k == 0 {
        assert ResumeAt(m, |n|, from, k) == from && m[0] == p;
      } else {
        MatchesFromResume(h, n, p + |n|, k - 1);
        assert ResumeAt(m, |n|, from, k) == ResumeAt(rest, |n|, p + |n|, k - 1);
        assert k < |m| ==> m[k] == rest[k - 1];
      }
  }

  /** The `memmem` call of one step of `xtr_occurrences`: a search of the
      window of `remaining` bytes from `prev`, which ends where the content
      ends. When the scan has passed `k` of the listed matches `m`, the
      match found there is the next one, and none is found after the last. */
  method NextMatch(h: seq<bv8>, n: seq<bv8>, prev: nat, remaining: Size, ghost m: seq<nat>, ghost k: nat) returns (w: Option<nat>)
    requires |n| > 0 && prev + remaining == |h|
    requires m == MatchesFrom(h, n, 0) && k <= |m| && prev == ResumeAt(m, |n|, 0, k)
    ensures w.None? <==> k == |m|
    ensures w.Some? ==> w.value + |n| <= remaining && prev + w.value == m[k]
  {
    assert h[prev..prev + remaining] == h[prev..];
    w := MemMem(h[prev..prev + remaining], n);
    FirstMatchInSuffix(h, n, prev);
    MatchesFromResume(h, n, 0, k);
  }

  /** The loop of `xtr_occurrences`: `memmem` over the window from just
      after the previous match to the end of the content, counting each
      match. The window shrinks with `OccurrencesRemaining`, so it always
      ends where the content ends, and the scan passes the listed matches
      one by one. */
  method CountMatches(h: seq<bv8>, n: seq<bv8>) returns (count: nat)
    requires |n| > 0 && |h| <= SIZE_MAX
    ensures count == |MatchesFrom(h, n, 0)|
  {
    ghost var m := MatchesFrom(h, n, 0);
    count := 0;
    var prev: nat := 0;
    var remaining: Size := |h|;
    while true
      invariant prev + remaining == |h|
      invariant count <= |m| && prev == ResumeAt(m, |n|, 0, count)
      decreases remaining
    {
      var w := NextMatch(h, n, prev, remaining, m, count);
      if w.None? {
        break;
      }
      count := count + 1;
      remaining := OccurrencesRemaining(remaining, w.value, |n|);
      prev := prev + w.value + |n|;
    }
  }

  /** `xtr_occurrences`: 0 for empty inputs, otherwise the count of the
      scan, which is `Occurrences`: the number of non-overlapping matches. */
  method OccurrencesScan(hay: Option<Xtring>, needle: Option<Xtring>) returns (count: Size)
    ensures count == Occurrences(hay, needle)
  {
    if Access.IsEmpty(hay) || Access.IsEmpty(needle) {
      return 0;
    }
    var c := CountMatches(hay.value.content, needle.value.content);
    assert c == Occurrences(hay, needle);
    count := c;
  }

  /** The same update as line 81 of src/xtr_search.c writes it, in `size_t`
      arithmetic: `remaining -= (gap - n)`. */
  function OccurrencesRemainingAsWritten(remaining: Size, gap: Size, n: Size): Size {
    Wrap(remaining + (SIZE_MAX + 1) - Wrap(gap + (SIZE_MAX + 1) - n))
  }

  /** As written, the window after a match reaches `2 * n` bytes past the end
      of the content, so the next `memmem` reads beyond the buffer. */
  lemma OccurrencesWindowOverruns(remaining: Size, gap: Size, n: Size)
    requires gap + n <= remaining && remaining + n <= SIZE_MAX
    ensures gap + n + OccurrencesRemainingAsWritten(remaining, gap, n) == remaining + 2 * n
  {
    var m := SIZE_MAX + 1;
    if gap >= n {
      assert Wrap(gap + m - n) == gap - n by { ModShift(gap - n, 1, m); }
      assert Wrap(remaining + m - (gap - n)) == remaining - gap + n by { ModShift(remaining - gap + n, 1, m); }
    } else {
      assert Wrap(gap + m - n) == gap + m - n by { ModShift(gap + m - n, 0, m); }
      assert Wrap(remaining + m - (gap + m - n)) == remaining - gap + n by { ModShift(remaining - gap + n, 0, m); }
    }
  }

  lemma ModShift(x: nat, k: nat, m: nat)
    requires x < m && k <= 1 && m == SIZE_MAX + 1
    ensures (x + k * m) % m == x
  {
    if k == 1 {
      assert x + k * m == x + (SIZE_MAX + 1);
    }
  }

  /** "aa" in "aa": after the match at 0 the window as written is 4 bytes long
      from offset 2, past the 2-byte content; resuming as intended leaves 0. */
  lemma OccurrencesWindowExample()
    ensures OccurrencesRemainingAsWritten(2, 0, 2) == 4
    ensures OccurrencesRemaining(2, 0, 2) == 0
  {
    OccurrencesWindowOverruns(2, 0, 2);
  }

  /** "aa" occurs twice in "aaaa": matches do not overlap. */
  lemma OccurrencesExample()
    ensures Occurrences(Some(Xtr(4, [0x61, 0x61, 0x61, 0x61])), Some(Xtr(2, [0x61, 0x61]))) == 2
  {
    var a4: seq<bv8> := [0x61, 0x61, 0x61, 0x61];
    var aa: seq<bv8> := [0x61, 0x61];
    assert MatchAt(a4, aa, 0) && MatchAt(a4, aa, 2);
    assert MatchesFrom(a4, aa, 4) == [];
    assert MatchesFrom(a4, aa, 2) == [2];
    assert MatchesFrom(a4, aa, 0) == [0, 2];
  }

  /** "aa" occurs once in "aaa": the second 'a' is used up by the first match. */
  lemma OccurrencesOverlapExample()
    ensures Occurrences(Some(Xtr(3, [0x61, 0x61, 0x61])), Some(Xtr(2, [0x61, 0x61]))) == 1
  {
    var a3: seq<bv8> := [0x61, 0x61, 0x61];
    var aa: seq<bv8> := [0x61, 0x61];
    assert MatchAt(a3, aa, 0);
    assert MatchesFrom(a3, aa, 2) == [];
    assert MatchesFrom(a3, aa, 0) == [0];
  }
}
