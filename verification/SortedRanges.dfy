/** Reference answers to the range queries on a sorted sequence. */
module SortedRanges {
  import opened Common
  import opened Float
  import opened SortedKeys
  import opened Windows

  datatype ScoreRange = ScoreRange(min: F64, max: F64, minExclusive: bool, maxExclusive: bool)

  predicate BelowMin(r: ScoreRange, v: F64) {
    if r.minExclusive then Le(v, r.min) else Lt(v, r.min)
  }

  predicate AboveMax(r: ScoreRange, v: F64) {
    if r.maxExclusive then Le(r.max, v) else Lt(r.max, v)
  }

  /** A NaN bound compares false with everything, so it excludes nothing. */
  predicate InRange(r: ScoreRange, v: F64) {
    !BelowMin(r, v) && !AboveMax(r, v)
  }

  function Within(s: seq<Elem>, r: ScoreRange): seq<Elem> {
    if s == [] then [] else (if InRange(r, s[0].score) then [s[0]] else []) + Within(s[1..], r)
  }

  /** LIMIT: drop `offset` elements when positive, then keep `count` of the rest, or all of them when negative. */
  function Limit(s: seq<Elem>, offset: int, count: int): seq<Elem> {
    var d := if offset <= 0 then s else if offset >= |s| then [] else s[offset..];
    if count < 0 || count >= |d| then d else d[..count]
  }

  /** The clamping at the start of RangeByRank: inclusive bounds, or None for an empty answer. */
  function RankBounds(llen: nat, start0: int, stop0: int): (r: Option<(int, int)>)
    ensures r.Some? ==> 0 <= r.value.0 <= r.value.1 < llen
  {
    var start1 := if start0 < 0 then llen + start0 else start0;
    var stop1 := if stop0 < 0 then llen + stop0 else stop0;
    var start := if start1 < 0 then 0 else start1;
    if llen == 0 || start > llen - 1 || stop1 < 0 then None
    else
      var stop := if stop1 > llen - 1 then llen - 1 else stop1;
      if start > stop then None else Some((start, stop))
  }

  lemma WindowByBounds<T>(s: seq<T>, start: int, stop: int)
    ensures var b := RankBounds(|s|, start, stop);
            Window(s, start, stop) == if b.None? then [] else s[b.value.0..b.value.1 + 1]
  {
  }

  /** The window of the reversed sequence is the mirrored window, reversed. */
  lemma ReverseWindowByBounds<T>(s: seq<T>, start: int, stop: int, mirrored: seq<T>)
    requires var b := RankBounds(|s|, start, stop);
             mirrored == if b.None? then [] else s[|s| - 1 - b.value.1..|s| - b.value.0]
    ensures Window(Reverse(s), start, stop) == Reverse(mirrored)
  {
    WindowByBounds(Reverse(s), start, stop);
    var b := RankBounds(|s|, start, stop);
    if b.Some? {
      assert Reverse(s)[b.value.0..b.value.1 + 1] == Reverse(mirrored);
    }
  }

  lemma {:induction false} WithinConcat(s: seq<Elem>, t: seq<Elem>, r: ScoreRange)
    ensures Within(s + t, r) == Within(s, r) + Within(t, r)
  {
    if s == [] {
      assert s + t == t;
    } else {
      assert (s + t)[0] == s[0] && (s + t)[1..] == s[1..] + t;
      WithinConcat(s[1..], t, r);
    }
  }

  lemma WithinStep(s: seq<Elem>, j: nat, r: ScoreRange)
    requires j < |s|
    ensures Within(s[..j + 1], r) == Within(s[..j], r) + if InRange(r, s[j].score) then [s[j]] else []
  {
    assert s[..j + 1] == s[..j] + [s[j]];
    WithinConcat(s[..j], [s[j]], r);
  }

  lemma WithinSplit(s: seq<Elem>, j: nat, r: ScoreRange)
    requires j <= |s|
    ensures Within(s, r) == Within(s[..j], r) + Within(s[j..], r)
  {
    assert s == s[..j] + s[j..];
    WithinConcat(s[..j], s[j..], r);
  }

  lemma {:induction false} WithinNone(s: seq<Elem>, r: ScoreRange)
    requires forall i :: 0 <= i < |s| ==> !InRange(r, s[i].score)
    ensures Within(s, r) == []
  {
    if s != [] {
      WithinNone(s[1..], r);
    }
  }

  /** Membership in the answer is membership in the sequence plus the two bounds. */
  lemma {:induction false} WithinElements(s: seq<Elem>, r: ScoreRange, x: Elem)
    ensures x in Within(s, r) <==> x in s && InRange(r, x.score)
  {
    if s != [] {
      WithinElements(s[1..], r, x);
      assert x in s <==> x == s[0] || x in s[1..];
    }
  }

  lemma {:induction false} WithinSorted(s: seq<Elem>, r: ScoreRange)
    requires Sorted(s)
    ensures Sorted(Within(s, r))
  {
    if s != [] {
      WithinSorted(s[1..], r);
      var t, u := Within(s, r), Within(s[1..], r);
      forall i, j | 0 <= i < j < |t|
        ensures KeyLess(t[i], t[j])
      {
        if InRange(r, s[0].score) {
          WithinElements(s[1..], r, u[j - 1]);
          var k :| 0 <= k < |s[1..]| && s[1..][k] == u[j - 1];
          assert KeyLess(s[0], s[k + 1]);
        }
      }
    }
  }

  /** Scores never decrease along a sorted sequence. */
  lemma SortedScores(s: seq<Elem>, i: nat, j: nat)
    requires Sorted(s) && i <= j < |s|
    ensures Le(s[i].score, s[j].score)
  {
    if i < j {
      assert KeyLess(s[i], s[j]);
    }
  }

  /** Once an element exceeds the upper bound, so do all later ones. */
  lemma NoneAfterMax(s: seq<Elem>, j: nat, r: ScoreRange)
    requires Sorted(s) && j < |s| && AboveMax(r, s[j].score)
    ensures Within(s[j..], r) == []
  {
    forall i | j <= i < |s|
      ensures !InRange(r, s[i].score)
    {
      SortedScores(s, j, i);
    }
    WithinNone(s[j..], r);
  }

  /** Before an element below a score, all elements are below it. */
  lemma AllBelow(s: seq<Elem>, p: nat, v: F64)
    requires Sorted(s) && 0 < p <= |s| && Lt(s[p - 1].score, v)
    ensures forall i :: 0 <= i < p ==> Lt(s[i].score, v)
  {
    forall i | 0 <= i < p
      ensures Lt(s[i].score, v)
    {
      SortedScores(s, i, p - 1);
    }
  }

  lemma WindowSorted(s: seq<Elem>, start: int, stop: int)
    requires Sorted(s)
    ensures Sorted(Window(s, start, stop))
    ensures forall i :: 0 <= i < |Window(s, start, stop)| ==> Window(s, start, stop)[i] in s
  {
  }

  /** The window at an element's own rank is that element, forwards and, at the reverse rank, backwards. */
  lemma WindowAtRank<T>(s: seq<T>, i: nat)
    requires i < |s|
    ensures Window(s, i, i) == [s[i]]
    ensures Window(Reverse(s), |s| - 1 - i, |s| - 1 - i) == [s[i]]
  {
  }

  /** The ascending scan over s[j..] with its early exits, as the code runs it. */
  function Scan(s: seq<Elem>, j: nat, r: ScoreRange, offset: int, count: int, skipped: nat, out: seq<Elem>): seq<Elem>
    requires j <= |s|
    decreases |s| - j
  {
    if j == |s| then out
    else if BelowMin(r, s[j].score) then Scan(s, j + 1, r, offset, count, skipped, out)
    else if AboveMax(r, s[j].score) then out
    else if offset > 0 && skipped < offset then Scan(s, j + 1, r, offset, count, skipped + 1, out)
    else if count > 0 && |out| + 1 >= count then out + [s[j]]
    else Scan(s, j + 1, r, offset, count, skipped, out + [s[j]])
  }

  /** How many of the first n matches LIMIT's offset passes over. */
  function Skipped(n: nat, offset: int): nat {
    if offset <= 0 then 0 else if n < offset then n else offset
  }

  /** LIMIT of all matches, when the collection stopped because they ran out or because `count` was reached. */
  lemma LimitOfPrefix(f: seq<Elem>, g: seq<Elem>, offset: int, count: int)
    requires count != 0
    requires (g == [] && (count < 0 || |f| - Skipped(|f|, offset) < count)) || 0 < count == |f| - Skipped(|f|, offset)
    ensures Limit(f + g, offset, count) == f[Skipped(|f|, offset)..]
  {
  }

  /** The scan answers LIMIT of the matches, whatever it had collected from s[..j]. */
  lemma {:induction false} ScanIsLimit(s: seq<Elem>, j: nat, r: ScoreRange, offset: int, count: int, f: seq<Elem>)
    requires Sorted(s) && j <= |s| && count != 0 && f == Within(s[..j], r)
    requires count > 0 ==> |f| - Skipped(|f|, offset) < count
    ensures Scan(s, j, r, offset, count, Skipped(|f|, offset), f[Skipped(|f|, offset)..]) ==
            Limit(Within(s, r), offset, count)
    decreases |s| - j
  {
    WithinSplit(s, j, r);
    if j == |s| {
      assert s[..j] == s;
      LimitOfPrefix(f, [], offset, count);
    } else if !BelowMin(r, s[j].score) && AboveMax(r, s[j].score) {
      NoneAfterMax(s, j, r);
      LimitOfPrefix(f, [], offset, count);
    } else {
      WithinStep(s, j, r);
      var f' := Within(s[..j + 1], r);
      var k, k' := Skipped(|f|, offset), Skipped(|f'|, offset);
      assert f'[k'..] == if f' == f || k' > k then f[k..] else f[k..] + [s[j]];
      if count > 0 && |f'| - k' >= count {
        WithinSplit(s, j + 1, r);
        LimitOfPrefix(f', Within(s[j + 1..], r), offset, count);
      } else {
        ScanIsLimit(s, j + 1, r, offset, count, f');
      }
    }
  }

  /**
  The window a reverse query emits from its ascending matches: [end - count, end) read backwards, with end
  counted down from the top by `offset`.  It is LIMIT of the reversed matches.  The two iterators that delimit it
  lie among the matches unless the offset is negative; then the query has no defined answer.
  */
  function DescendingWindow(asc: seq<Elem>, offset: int, count: int): (out: Option<seq<Elem>>)
    requires count != 0
    ensures out == if offset < 0 then None else Some(Limit(Reverse(asc), offset, count))
  {
    var end := |asc| - offset;
    if end <= 0 then Some([])
    else
      var start := if count > 0 && end - count > 0 then end - count else 0;
      if !(0 <= |asc| - end <= |asc| - start <= |asc|) then None
      else
        var d := if offset == 0 then Reverse(asc) else Reverse(asc)[offset..];
        assert d == Reverse(asc[..end]);
        assert (if count < 0 || count >= |d| then d else d[..count]) == Reverse(asc[start..end]);
        Some(Reverse(asc[start..end]))
  }
}
