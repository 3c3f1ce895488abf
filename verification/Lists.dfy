/** List windows and removals: LRANGE, LTRIM and LREM on one list. */
module Lists {
  import opened Common
  import opened Windows

  /** Clamps the two ends; false for an empty window. */
  method ListIndexRange(start: I64, stop: I64, n: nat) returns (ok: bool, lo: int, hi: int)
    requires n < TWO63
    ensures ok ==> 0 <= lo <= hi < n && forall i: nat :: i < n ==> (lo <= i <= hi <==> Inside(i, start, stop, n))
    ensures !ok ==> forall i: nat :: i < n ==> !Inside(i, start, stop, n)
    ensures n == 0 ==> !ok
  {
    lo, hi := start, stop;
    if lo < 0 {
      lo := lo + n;
    }
    if hi < 0 {
      hi := hi + n;
    }
    if lo < 0 {
      lo := 0;
    }
    if hi >= n {
      hi := n - 1;
    }
    ok := hi >= lo;
  }

  function Count(l: seq<Bytes>, x: Bytes): nat {
    if l == [] then 0 else (if l[0] == x then 1 else 0) + Count(l[1..], x)
  }

  /** The list without its first n elements equal to x. */
  function Removed(l: seq<Bytes>, x: Bytes, n: nat): seq<Bytes>
    decreases |l|
  {
    if l == [] || n == 0 then l
    else if l[0] == x then Removed(l[1..], x, n - 1)
    else [l[0]] + Removed(l[1..], x, n)
  }

  /** The same counted from the tail. */
  function RemovedLast(l: seq<Bytes>, x: Bytes, n: nat): seq<Bytes> {
    Reverse(Removed(Reverse(l), x, n))
  }

  function Without(l: seq<Bytes>, x: Bytes): seq<Bytes> {
    if l == [] then [] else (if l[0] == x then [] else [l[0]]) + Without(l[1..], x)
  }

  function Least(a: nat, b: nat): nat {
    if a < b then a else b
  }

  /** Negation in 64 bits: the least number is its own negation. */
  function Negated(n: I64): I64 {
    if n == -TWO63 then n else -n
  }

  /** Subtraction in 64 bits. */
  function Difference(a: I64, b: I64): I64 {
    var d := a - b;
    if d >= TWO63 then d - TWO64 else if d < -TWO63 then d + TWO64 else d
  }

  /** What LREM leaves: a positive count from the head, a negative one from the tail, zero for all. */
  function Remaining(l: seq<Bytes>, x: Bytes, count: int): seq<Bytes> {
    if count == 0 then Without(l, x) else if count > 0 then Removed(l, x, count) else RemovedLast(l, x, -count)
  }

  /** How many elements that is. */
  function Matched(l: seq<Bytes>, x: Bytes, count: int): nat {
    if count == 0 then Count(l, x) else Least(if count > 0 then count else -count, Count(l, x))
  }

  lemma {:induction false} CountConcat(a: seq<Bytes>, b: seq<Bytes>, x: Bytes)
    ensures Count(a + b, x) == Count(a, x) + Count(b, x)
    decreases |a|
  {
    if a == [] {
      assert a + b == b;
    } else {
      assert (a + b)[1..] == a[1..] + b;
      CountConcat(a[1..], b, x);
    }
  }

  lemma {:induction false} WithoutConcat(a: seq<Bytes>, b: seq<Bytes>, x: Bytes)
    ensures Without(a + b, x) == Without(a, x) + Without(b, x)
    decreases |a|
  {
    if a == [] {
      assert a + b == b;
    } else {
      assert (a + b)[1..] == a[1..] + b;
      WithoutConcat(a[1..], b, x);
      ConcatAssoc(if a[0] == x then [] else [a[0]], Without(a[1..], x), Without(b, x));
    }
  }

  lemma {:induction false} WithoutNone(l: seq<Bytes>, x: Bytes)
    requires Count(l, x) == 0
    ensures Without(l, x) == l
  {
    if l != [] {
      WithoutNone(l[1..], x);
    }
  }

  /** Exactly the removed ones are missing. */
  lemma {:induction false} RemovedCount(l: seq<Bytes>, x: Bytes, n: nat)
    ensures |l| - |Removed(l, x, n)| == if n < Count(l, x) then n else Count(l, x)
    decreases |l|
  {
    if l != [] && n > 0 {
      RemovedCount(l[1..], x, if l[0] == x then n - 1 else n);
    }
  }

  lemma {:induction false} RemovedAll(l: seq<Bytes>, x: Bytes, n: nat)
    requires n >= Count(l, x)
    ensures Removed(l, x, n) == Without(l, x)
    decreases |l|
  {
    if l != [] {
      if n == 0 {
        WithoutNone(l, x);
      } else {
        RemovedAll(l[1..], x, if l[0] == x then n - 1 else n);
      }
    }
  }

  /** Once the head holds all n, the tail is left alone. */
  lemma {:induction false} RemovedHead(a: seq<Bytes>, b: seq<Bytes>, x: Bytes, n: nat)
    requires Count(a, x) == n
    ensures Removed(a + b, x, n) == Without(a, x) + b
    decreases |a|
  {
    if a == [] {
      assert a + b == b;
    } else if n == 0 {
      WithoutNone(a, x);
    } else {
      assert (a + b)[1..] == a[1..] + b;
      RemovedHead(a[1..], b, x, if a[0] == x then n - 1 else n);
    }
  }

  lemma ReverseConcat(a: seq<Bytes>, b: seq<Bytes>)
    ensures Reverse(a + b) == Reverse(b) + Reverse(a)
  {
  }

  lemma {:induction false} CountReverse(l: seq<Bytes>, x: Bytes)
    ensures Count(Reverse(l), x) == Count(l, x)
  {
    if l != [] {
      CountReverse(l[1..], x);
      ReverseConcat([l[0]], l[1..]);
      assert [l[0]] + l[1..] == l && Reverse([l[0]]) == [l[0]];
      CountConcat(Reverse(l[1..]), [l[0]], x);
      assert Count([l[0]][1..], x) == 0;
    }
  }

  lemma WithoutOne(y: Bytes, x: Bytes)
    ensures Without([y], x) == (if y == x then [] else [y]) && Reverse(Without([y], x)) == Without([y], x)
  {
    assert |[y][1..]| == 0;
  }

  lemma {:induction false} WithoutReverse(l: seq<Bytes>, x: Bytes)
    ensures Without(Reverse(l), x) == Reverse(Without(l, x))
  {
    if l != [] {
      var head, rest := [l[0]], l[1..];
      assert head + rest == l && Reverse(head) == head;
      WithoutReverse(rest, x);
      ReverseConcat(head, rest);
      WithoutConcat(Reverse(rest), head, x);
      WithoutConcat(head, rest, x);
      WithoutOne(l[0], x);
      ReverseConcat(Without(head, x), Without(rest, x));
    }
  }

  lemma ReverseTwice(l: seq<Bytes>)
    ensures Reverse(Reverse(l)) == l
  {
  }

  /** Taking the last n out is taking all out of a tail that holds exactly n. */
  lemma TailRemoved(a: seq<Bytes>, b: seq<Bytes>, x: Bytes, n: nat)
    requires Count(b, x) == n
    ensures RemovedLast(a + b, x, n) == a + Without(b, x)
  {
    ReverseConcat(a, b);
    CountReverse(b, x);
    RemovedHead(Reverse(b), Reverse(a), x, n);
    WithoutReverse(b, x);
    ReverseConcat(Reverse(Without(b, x)), Reverse(a));
    ReverseTwice(a);
    ReverseTwice(Without(b, x));
  }

  lemma TailRemovedAll(l: seq<Bytes>, x: Bytes, n: nat)
    requires n >= Count(l, x)
    ensures RemovedLast(l, x, n) == Without(l, x)
  {
    CountReverse(l, x);
    RemovedAll(Reverse(l), x, n);
    WithoutReverse(l, x);
    ReverseTwice(Without(l, x));
  }

  /** The positions of x. */
  ghost predicate Hits(l: seq<Bytes>, x: Bytes, hits: seq<nat>) {
    && (forall i :: 0 <= i < |hits| ==> hits[i] < |l| && l[hits[i]] == x)
    && (forall i, j :: 0 <= i < j < |hits| ==> hits[i] < hits[j])
    && (forall k :: 0 <= k < |l| && l[k] == x ==> k in hits)
  }

  lemma {:induction false} NoneCounted(l: seq<Bytes>, x: Bytes)
    requires x !in l
    ensures Count(l, x) == 0 && Without(l, x) == l
  {
    if l != [] {
      NoneCounted(l[1..], x);
    }
  }

  /** Where the part cleared so far begins, when hit k is the last one erased. */
  function Edge(hits: seq<nat>, k: nat, n: nat): nat {
    if k < |hits| then hits[k] else n
  }

  /** Between a hit and the next one, or the end, there is no other. */
  lemma HitGap(l: seq<Bytes>, x: Bytes, hits: seq<nat>, k: nat, e: nat)
    requires Hits(l, x, hits) && k < |hits| && e == Edge(hits, k + 1, |l|)
    ensures hits[k] < e <= |l| && x !in l[hits[k] + 1..e]
  {
    assert forall i :: hits[k] < i < e ==> l[i] != x;
  }

  lemma BeforeFirst(l: seq<Bytes>, x: Bytes, hits: seq<nat>)
    requires Hits(l, x, hits)
    ensures hits == [] ==> x !in l
    ensures hits != [] ==> x !in l[..hits[0]]
  {
    assert hits != [] ==> forall i :: 0 <= i < hits[0] ==> l[i] != x;
  }

  lemma GapRemoved(gap: seq<Bytes>, rest: seq<Bytes>, x: Bytes)
    requires x !in gap
    ensures Without([x] + (gap + rest), x) == gap + Without(rest, x)
    ensures Count([x] + (gap + rest), x) == Count(rest, x) + 1
  {
    assert ([x] + (gap + rest))[1..] == gap + rest;
    NoneCounted(gap, x);
    WithoutConcat(gap, rest, x);
    CountConcat(gap, rest, x);
  }

  lemma DropAt(a: seq<Bytes>, x: Bytes, gap: seq<Bytes>, t: seq<Bytes>, cur: seq<Bytes>)
    requires cur == a + [x] + gap + t
    ensures cur[..|a|] == a && cur[|a| + 1..] == gap + t
  {
  }

  /** One hit further towards the head. */
  lemma EraseHit(l: seq<Bytes>, x: Bytes, h: nat, e: nat)
    requires h < e <= |l| && l[h] == x && x !in l[h + 1..e]
    ensures var cur := l[..e] + Without(l[e..], x);
            cur[..h] + cur[h + 1..] == l[..h] + Without(l[h..], x)
    ensures Count(l[h..], x) == Count(l[e..], x) + 1
  {
    var gap, rest := l[h + 1..e], l[e..];
    assert l[h..] == [x] + (gap + rest);
    GapRemoved(gap, rest, x);
    assert l[..e] == l[..h] + [x] + gap;
    DropAt(l[..h], x, gap, Without(rest, x), l[..e] + Without(rest, x));
  }

  lemma Cut(a: seq<Bytes>, b: seq<Bytes>)
    requires b != []
    ensures (a + b)[..|a|] == a && (a + b)[|a| + 1..] == b[1..] && a + b == a + [b[0]] + b[1..]
  {
  }

  lemma KeptStep(kept: seq<Bytes>, was: seq<Bytes>, li: nat, start: I64, stop: I64, n: nat)
    requires li < |was|
    ensures kept + Selected(was[li..], li, start, stop, n) ==
            (if Inside(li, start, stop, n) then kept + [was[li]] else kept) +
            Selected(was[li + 1..], li + 1, start, stop, n)
  {
    assert was[li..][1..] == was[li + 1..];
    var rest := Selected(was[li + 1..], li + 1, start, stop, n);
    assert kept + ([was[li]] + rest) == kept + [was[li]] + rest;
    assert kept + ([] + rest) == kept + rest;
  }

  lemma RemovedStep(kept: seq<Bytes>, rest: seq<Bytes>, x: Bytes, n: nat)
    requires rest != [] && n > 0
    ensures kept + Removed(rest, x, n) ==
            if rest[0] == x then kept + Removed(rest[1..], x, n - 1) else kept + [rest[0]] + Removed(rest[1..], x, n)
  {
    ConcatAssoc(kept, [rest[0]], Removed(rest[1..], x, n));
  }

  class ListValue {
    var l: seq<Bytes>

    constructor (items: seq<Bytes>)
      ensures l == items
    {
      l := items;
    }

    /** LRANGE. */
    method Range(start: I64, stop: I64) returns (items: seq<Bytes>)
      requires |l| < TWO63
      ensures items == Window(l, start, stop)
    {
      WindowSelects(l, start, stop);
      var ok, lo, hi := ListIndexRange(start, stop, |l|);
      items := [];
      if !ok {
        SelectedNone(l, 0, start, stop, |l|);
        return;
      }
      items := CollectTo(lo, hi, start, stop);
    }

    /** The loop of LRANGE over the clamped window. */
    method CollectTo(lo: int, hi: int, ghost start: I64, ghost stop: I64) returns (items: seq<Bytes>)
      requires forall i: nat :: i < |l| ==> (lo <= i <= hi <==> Inside(i, start, stop, |l|))
      ensures items == Selected(l, 0, start, stop, |l|)
    {
      items := [];
      var i := 0;
      assert l[0..] == l && [] + Selected(l, 0, start, stop, |l|) == Selected(l, 0, start, stop, |l|);
      while i < |l| && i <= hi
        invariant 0 <= i <= |l| && items + Selected(l[i..], i, start, stop, |l|) == Selected(l, 0, start, stop, |l|)
      {
        KeptStep(items, l, i, start, stop, |l|);
        if i >= lo {
          items := items + [l[i]];
        }
        i := i + 1;
      }
      SelectedNone(l[i..], i, start, stop, |l|);
    }

    /** LTRIM; the key is deleted when nothing is left of a list that held something. */
    method Trim(start: I64, stop: I64) returns (deleted: bool)
      requires |l| < TWO63
      modifies this
      ensures deleted == (old(l) != [] && Window(old(l), start, stop) == [])
      ensures !deleted ==> l == Window(old(l), start, stop)
    {
      WindowSelects(l, start, stop);
      if l == [] {
        return false;
      }
      var n := |l|;
      var ok, lo, hi := ListIndexRange(start, stop, n);
      if !ok {
        SelectedNone(l, 0, start, stop, n);
        return true;
      }
      TrimTo(lo, hi, start, stop);
      deleted := l == [];
    }

    /** Erases every element outside the clamped window. */
    method TrimTo(lo: int, hi: int, ghost start: I64, ghost stop: I64)
      requires forall i: nat :: i < |l| ==> (lo <= i <= hi <==> Inside(i, start, stop, |l|))
      modifies this
      ensures l == Selected(old(l), 0, start, stop, |old(l)|)
    {
      ghost var n := |l|;
      var at, li := 0, 0;
      ghost var was, kept := l, [];
      assert [] + was[0..] == was && [] + Selected(was, 0, start, stop, n) == Selected(was, 0, start, stop, n);
      while at < |l|
        invariant 0 <= li <= n == |was| && at == |kept| && l == kept + was[li..]
        invariant kept + Selected(was[li..], li, start, stop, n) == Selected(was, 0, start, stop, n)
        decreases |l| - at
      {
        Cut(kept, was[li..]);
        assert was[li..][1..] == was[li + 1..];
        KeptStep(kept, was, li, start, stop, n);
        if li < lo || li > hi {
          l := l[..at] + l[at + 1..];
        } else {
          kept := kept + [was[li]];
          at := at + 1;
        }
        li := li + 1;
      }
      assert kept + [] == kept;
    }

    /** The head-first loop of LREM, for a limit that is zero (no limit) or positive. */
    method RemoveForward(count: I64, x: Bytes) returns (removed: nat)
      requires 0 <= count
      modifies this
      ensures l == Remaining(old(l), x, count) && removed == |old(l)| - |l|
    {
      ghost var was, kept, rest := l, [], l;
      ghost var limit: nat := if count == 0 then |was| else count;
      removed := 0;
      var i := 0;
      assert [] + was == was && [] + Removed(was, x, limit) == Removed(was, x, limit);
      while i < |l| && (count == 0 || removed < count)
        invariant l == kept + rest && i == |kept| && |l| + removed == |was| && removed <= limit
        invariant kept + Removed(rest, x, limit - removed) == Removed(was, x, limit)
        decreases |l| - i
      {
        Cut(kept, rest);
        RemovedStep(kept, rest, x, limit - removed);
        if l[i] == x {
          l := l[..i] + l[i + 1..];
          removed := removed + 1;
        } else {
          kept := kept + [rest[0]];
          i := i + 1;
        }
        rest := rest[1..];
      }
      if count == 0 {
        CountAtMost(was, x);
        RemovedAll(was, x, limit);
      }
    }

    /** Erases the element at position h, the last x before the part already cleared. */
    method EraseAt(h: nat, ghost x: Bytes, ghost was: seq<Bytes>, ghost e: nat)
      requires h < e <= |was| && was[h] == x && x !in was[h + 1..e] && l == was[..e] + Without(was[e..], x)
      modifies this
      ensures l == was[..h] + Without(was[h..], x) && |l| == |old(l)| - 1
      ensures Count(was[h..], x) == Count(was[e..], x) + 1
    {
      EraseHit(was, x, h, e);
      l := l[..h] + l[h + 1..];
    }

    /**
    The tail-first form: collect the positions, then erase the last ones.  Negating the least count, and the loop bound
    computed from it, overflow; the loop then runs off the front of the positions, and the call has no defined outcome.
    */
    method RemoveBackward(count: I64, x: Bytes) returns (removed: Option<nat>)
      requires count < 0 && |l| < TWO63
      modifies this
      ensures removed.None? <==> count == -TWO63
      ensures removed.Some? ==> l == Remaining(old(l), x, count) && removed.value == |old(l)| - |l|
    {
      ghost var was := l;
      var hits := FindHits(l, x);
      var want := if |hits| < Negated(count) then |hits| else Negated(count);
      var bound := Difference(|hits|, want);
      BoundWraps(|hits|, count, want);
      removed := EraseFrom(hits, bound, x);
      if removed.Some? {
        LastErased(was, x, hits, Edge(hits, bound, |was|), want, -count);
      }
    }

    /** Erases the collected positions from the last one down to `bound`; undefined when there are not that many. */
    method EraseFrom(hits: seq<nat>, bound: int, ghost x: Bytes) returns (removed: Option<nat>)
      requires Hits(l, x, hits) && bound <= |hits|
      modifies this
      ensures removed.None? <==> bound < 0
      ensures removed.Some? ==>
                var e := Edge(hits, bound, |old(l)|);
                && removed.value == |hits| - bound && |l| + removed.value == |old(l)|
                && e <= |old(l)| && Count(old(l)[e..], x) == removed.value
                && l == old(l)[..e] + Without(old(l)[e..], x)
    {
      ghost var was, e := l, |l|;
      assert |l[e..]| == 0 && l[..e] + Without(l[e..], x) == l;
      var k, n := |hits| - 1, 0;
      while k >= bound
        invariant -1 <= k && bound - 1 <= k && n == |hits| - 1 - k && e == Edge(hits, k + 1, |was|) <= |was|
        invariant Count(was[e..], x) == n && l == was[..e] + Without(was[e..], x) && |l| + n == |was|
      {
        if k < 0 {
          return None;
        }
        HitGap(was, x, hits, k, e);
        EraseAt(hits[k], x, was, e);
        e := hits[k];
        k, n := k - 1, n + 1;
      }
      return Some(n);
    }

    /** LREM; the reply is the number of elements the list lost, and the least count alone has no defined outcome. */
    method Rem(count: I64, x: Bytes) returns (removed: Option<nat>)
      requires |l| < TWO63
      modifies this
      ensures removed.None? <==> count == -TWO63
      ensures removed.Some? ==> l == Remaining(old(l), x, count) && removed.value == |old(l)| - |l|
      ensures removed.Some? ==> removed.value == Matched(old(l), x, count)
    {
      ReplyCounts(l, x, count, Remaining(l, x, count));
      if count >= 0 {
        var n := RemoveForward(count, x);
        removed := Some(n);
      } else {
        removed := RemoveBackward(count, x);
      }
    }
  }

  lemma LastErased(was: seq<Bytes>, x: Bytes, hits: seq<nat>, e: nat, want: nat, n: nat)
    requires Hits(was, x, hits) && want == (if |hits| < n then |hits| else n)
    requires e == Edge(hits, |hits| - want, |was|) <= |was| && Count(was[e..], x) == want
    ensures was[..e] + Without(was[e..], x) == RemovedLast(was, x, n)
  {
    assert was == was[..e] + was[e..];
    if want == n {
      TailRemoved(was[..e], was[e..], x, n);
    } else {
      BeforeFirst(was, x, hits);
      if hits == [] {
        assert was[..e] == was;
      }
      NoneCounted(was[..e], x);
      CountConcat(was[..e], was[e..], x);
      WithoutConcat(was[..e], was[e..], x);
      TailRemovedAll(was, x, n);
    }
  }

  method FindHits(l: seq<Bytes>, x: Bytes) returns (hits: seq<nat>)
    ensures Hits(l, x, hits) && |hits| <= |l|
  {
    hits := [];
    for i := 0 to |l|
      invariant |hits| <= i && forall j :: 0 <= j < |hits| ==> hits[j] < i && l[hits[j]] == x
      invariant forall j, k :: 0 <= j < k < |hits| ==> hits[j] < hits[k]
      invariant forall k :: 0 <= k < i && l[k] == x ==> k in hits
    {
      if l[i] == x {
        hits := hits + [i];
      }
    }
  }

  lemma {:induction false} CountAtMost(l: seq<Bytes>, x: Bytes)
    ensures Count(l, x) <= |l|
  {
    if l != [] {
      CountAtMost(l[1..], x);
    }
  }

  lemma WithoutCount(l: seq<Bytes>, x: Bytes)
    ensures |l| - |Without(l, x)| == Count(l, x)
  {
    RemovedAll(l, x, Count(l, x));
    RemovedCount(l, x, Count(l, x));
  }

  lemma RemovedLastCount(l: seq<Bytes>, x: Bytes, n: nat)
    ensures |l| - |RemovedLast(l, x, n)| == Least(n, Count(l, x))
  {
    CountReverse(l, x);
    RemovedCount(Reverse(l), x, n);
  }

  /** The reply LREM gives for a count. */
  lemma {:induction false} ReplyCounts(l: seq<Bytes>, x: Bytes, count: int, r: seq<Bytes>)
    requires r == Remaining(l, x, count)
    ensures |l| - |r| == Matched(l, x, count)
  {
    if count == 0 {
      WithoutCount(l, x);
    } else if count > 0 {
      RemovedCount(l, x, count);
    } else {
      RemovedLastCount(l, x, -count);
    }
  }

  /** The lower bound of the erasing loop falls below zero for the least count, whatever the list, and for no other. */
  lemma BoundWraps(n: I64, count: I64, want: I64)
    requires n >= 0 > count && want == if n < Negated(count) then n else Negated(count)
    ensures Difference(n, want) < 0 <==> count == -TWO63
    ensures count > -TWO63 ==> Difference(n, want) == n - Least(n, -count)
    ensures count == -TWO63 ==> Difference(n, want) == n - TWO63
  {
  }
}
