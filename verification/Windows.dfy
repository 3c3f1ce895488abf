/** Index windows with two signed ends, as LRANGE, LTRIM and the rank queries of sorted sets use them. */
module Windows {

  /** A position counted from the end when negative. */
  function Norm(i: int, n: nat): int {
    if i < 0 then i + n else i
  }

  predicate Inside(i: nat, start: int, stop: int, n: nat) {
    Norm(start, n) <= i <= Norm(stop, n)
  }

  /** The inclusive index window [start, stop], negative indices counting from the end, clamped to the sequence. */
  function Window<T>(s: seq<T>, start: int, stop: int): seq<T> {
    var lo := if start >= 0 then start else if |s| + start >= 0 then |s| + start else 0;
    var hi := if stop < 0 then |s| + stop else if stop >= |s| then |s| - 1 else stop;
    if lo <= hi then s[lo..hi + 1] else []
  }

  /** The elements of l, which begins at position `from` of n, whose position lies between the two ends. */
  function Selected<T>(l: seq<T>, from: nat, start: int, stop: int, n: nat): seq<T> {
    if l == [] then [] else
      (if Inside(from, start, stop, n) then [l[0]] else []) + Selected(l[1..], from + 1, start, stop, n)
  }

  lemma {:induction false} SelectedNone<T>(l: seq<T>, from: nat, start: int, stop: int, n: nat)
    requires forall i :: from <= i < from + |l| ==> !Inside(i, start, stop, n)
    ensures Selected(l, from, start, stop, n) == []
    decreases |l|
  {
    if l != [] {
      assert !Inside(from, start, stop, n);
      SelectedNone(l[1..], from + 1, start, stop, n);
    }
  }

  /** The positions selected are consecutive. */
  lemma {:induction false} SelectedSlice<T>(l: seq<T>, from: nat, start: int, stop: int, n: nat, lo: nat, hi: nat)
    requires from <= lo <= hi <= from + |l|
    requires forall i: nat :: from <= i < from + |l| ==> (Inside(i, start, stop, n) <==> lo <= i < hi)
    ensures Selected(l, from, start, stop, n) == l[lo - from..hi - from]
    decreases |l|
  {
    if lo == hi {
      SelectedNone(l, from, start, stop, n);
    } else {
      assert Inside(from, start, stop, n) <==> lo == from;
      SelectedSlice(l[1..], from + 1, start, stop, n, if lo == from then from + 1 else lo, hi);
    }
  }

  lemma WindowClamped<T>(s: seq<T>, start: int, stop: int, lo: nat, hi: int)
    requires lo == if Norm(start, |s|) < 0 then 0 else Norm(start, |s|)
    requires hi == if Norm(stop, |s|) >= |s| then |s| - 1 else Norm(stop, |s|)
    ensures Window(s, start, stop) == if lo <= hi then s[lo..hi + 1] else []
    ensures forall i: nat :: i < |s| ==> (Inside(i, start, stop, |s|) <==> lo <= i <= hi)
  {
  }

  /** The clamped window holds exactly the elements whose position lies between the two ends. */
  lemma WindowSelects<T>(s: seq<T>, start: int, stop: int)
    ensures Window(s, start, stop) == Selected(s, 0, start, stop, |s|)
  {
    var lo := if Norm(start, |s|) < 0 then 0 else Norm(start, |s|);
    var hi := if Norm(stop, |s|) >= |s| then |s| - 1 else Norm(stop, |s|);
    WindowClamped(s, start, stop, lo, hi);
    if lo <= hi {
      SelectedSlice(s, 0, start, stop, |s|, lo, hi + 1);
    } else {
      SelectedNone(s, 0, start, stop, |s|);
    }
  }
}
