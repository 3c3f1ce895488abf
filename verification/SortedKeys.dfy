/**
The order of a sorted set, by score and then by member, and the sorted sequences that are the abstract value
of a skip list.
*/
module SortedKeys {
  import opened Common
  import opened Float
  import opened SkipLinks

  datatype Elem = Elem(score: F64, member: Bytes)

  /** `std::string_view` order: bytewise lexicographic. */
  predicate BytesLess(a: Bytes, b: Bytes) {
    b != [] && (a == [] || a[0] < b[0] || (a[0] == b[0] && BytesLess(a[1..], b[1..])))
  }

  predicate KeyLess(a: Elem, b: Elem) {
    if !Eq(a.score, b.score) then Lt(a.score, b.score) else BytesLess(a.member, b.member)
  }

  predicate KeyEqual(a: Elem, b: Elem) {
    Eq(a.score, b.score) && a.member == b.member
  }

  /** The test of the rank walk, which steps onto an equal key. */
  predicate KeyLessEq(a: Elem, b: Elem) {
    Lt(a.score, b.score) || (Eq(a.score, b.score) && (a.member == b.member || BytesLess(a.member, b.member)))
  }

  lemma {:induction false} BytesLessTransitive(a: Bytes, b: Bytes, c: Bytes)
    requires BytesLess(a, b) && BytesLess(b, c)
    ensures BytesLess(a, c)
  {
    if a != [] && a[0] == b[0] == c[0] {
      BytesLessTransitive(a[1..], b[1..], c[1..]);
    }
  }

  lemma {:induction false} BytesLessTotal(a: Bytes, b: Bytes)
    ensures BytesLess(a, b) || a == b || BytesLess(b, a)
    ensures BytesLess(a, b) ==> a != b && !BytesLess(b, a)
    ensures !BytesLess(a, a)
  {
    if a != [] && b != [] {
      BytesLessTotal(a[1..], b[1..]);
      assert a[1..] == b[1..] && a[0] == b[0] ==> a == b;
    }
    if a != [] && a != b {
      BytesLessTotal(a[1..], a[1..]);
    }
  }

  lemma KeyLessTransitive(a: Elem, b: Elem, c: Elem)
    requires !IsNaN(a.score) && !IsNaN(b.score) && !IsNaN(c.score)
    requires KeyLess(a, b) && KeyLess(b, c)
    ensures KeyLess(a, c)
  {
    if Eq(a.score, b.score) && Eq(b.score, c.score) {
      BytesLessTransitive(a.member, b.member, c.member);
    }
  }

  /** On scores that are not NaN, exactly one of less, equal and greater holds. */
  lemma KeyTrichotomy(a: Elem, b: Elem)
    requires !IsNaN(a.score) && !IsNaN(b.score)
    ensures KeyLess(a, b) || KeyEqual(a, b) || KeyLess(b, a)
    ensures !(KeyLess(a, b) && KeyEqual(a, b)) && !(KeyLess(a, b) && KeyLess(b, a))
    ensures !(KeyEqual(a, b) && KeyLess(b, a))
  {
    BytesLessTotal(a.member, b.member);
    BytesLessTotal(b.member, a.member);
  }

  /** Keys that compare equal compare alike with every third key. */
  lemma KeyEqualCongruent(a: Elem, b: Elem, c: Elem)
    requires !IsNaN(a.score) && !IsNaN(b.score) && !IsNaN(c.score)
    requires KeyEqual(a, b)
    ensures KeyLess(a, c) == KeyLess(b, c) && KeyLess(c, a) == KeyLess(c, b) && KeyEqual(a, c) == KeyEqual(b, c)
  {
  }

  /** Strictly increasing, with no NaN score. */
  ghost predicate Sorted(s: seq<Elem>) {
    && (forall i :: 0 <= i < |s| ==> !IsNaN(s[i].score))
    && (forall i, j {:trigger KeyLess(s[i], s[j])} :: 0 <= i < j < |s| ==> KeyLess(s[i], s[j]))
  }

  /** The number of leading elements below `key`. */
  function LowerBound(s: seq<Elem>, key: Elem): (k: nat)
    ensures k <= |s|
    ensures forall i :: 0 <= i < k ==> KeyLess(s[i], key)
    ensures k < |s| ==> !KeyLess(s[k], key)
  {
    if s == [] || !KeyLess(s[0], key) then 0 else 1 + LowerBound(s[1..], key)
  }

  /** In a sorted sequence the elements below `key` are exactly a prefix. */
  lemma LowerBoundSplits(s: seq<Elem>, key: Elem)
    requires Sorted(s) && !IsNaN(key.score)
    ensures forall i :: 0 <= i < |s| ==> (i < LowerBound(s, key) <==> KeyLess(s[i], key))
  {
    var k := LowerBound(s, key);
    forall i | k <= i < |s|
      ensures !KeyLess(s[i], key)
    {
      if i > k && KeyLess(s[i], key) {
        KeyLessTransitive(s[k], s[i], key);
      }
    }
  }

  predicate Present(s: seq<Elem>, key: Elem) {
    var k := LowerBound(s, key);
    k < |s| && KeyEqual(s[k], key)
  }

  /** Present holds exactly when some element carries the key, and then at no other index than LowerBound. */
  lemma PresentIff(s: seq<Elem>, key: Elem)
    requires Sorted(s) && !IsNaN(key.score)
    ensures Present(s, key) <==> exists i :: 0 <= i < |s| && KeyEqual(s[i], key)
    ensures forall i :: 0 <= i < |s| && KeyEqual(s[i], key) ==> i == LowerBound(s, key)
  {
    LowerBoundSplits(s, key);
    var k := LowerBound(s, key);
    forall i | 0 <= i < |s| && KeyEqual(s[i], key)
      ensures i == k
    {
      KeyTrichotomy(s[i], key);
      if k < i {
        KeyEqualCongruent(s[i], key, s[k]);
      }
    }
  }

  /** An element is found at its own index. */
  lemma LowerBoundOfElement(s: seq<Elem>, i: nat)
    requires Sorted(s) && i < |s|
    ensures LowerBound(s, s[i]) == i && Present(s, s[i])
  {
    PresentIff(s, s[i]);
    assert KeyEqual(s[i], s[i]);
  }

  /** The number of elements at or below `key`. */
  function UpperBound(s: seq<Elem>, key: Elem): nat {
    if Present(s, key) then LowerBound(s, key) + 1 else LowerBound(s, key)
  }

  lemma UpperBoundSplits(s: seq<Elem>, key: Elem)
    requires Sorted(s) && !IsNaN(key.score)
    ensures forall i :: 0 <= i < |s| ==> (i < UpperBound(s, key) <==> KeyLessEq(s[i], key))
  {
    LowerBoundSplits(s, key);
    PresentIff(s, key);
  }

  /** The abstract effect of an insertion: an equal key has its score overwritten, any other key is added in order. */
  function Inserted(s: seq<Elem>, e: Elem): seq<Elem> {
    var k := LowerBound(s, e);
    if Present(s, e) then s[k := e] else InsertAt(s, k, e)
  }

  /** Where a search may stop: the element before is below `key`, the element after is not. */
  predicate Stops(s: seq<Elem>, key: Elem, k: nat) {
    k <= |s| && (k > 0 ==> KeyLess(s[k - 1], key)) && (k < |s| ==> !KeyLess(s[k], key))
  }

  /** The effect of an insertion at such a place. */
  function PlacedAt(s: seq<Elem>, e: Elem, k: nat): seq<Elem>
    requires k <= |s|
  {
    if k < |s| && KeyEqual(s[k], e) then s[k := e] else InsertAt(s, k, e)
  }

  /** t is s after an insertion of e at a place where a search may stop; NaN scores leave a choice. */
  ghost predicate Placed(s: seq<Elem>, e: Elem, t: seq<Elem>) {
    exists k {:trigger Stops(s, e, k)} :: Stops(s, e, k) && t == PlacedAt(s, e, k)
  }

  /** Without NaN there is one such place. */
  lemma StopsOnce(s: seq<Elem>, e: Elem, k: nat)
    requires Sorted(s) && !IsNaN(e.score) && Stops(s, e, k)
    ensures k == LowerBound(s, e)
  {
    LowerBoundSplits(s, e);
  }

  lemma PlacedIsInserted(s: seq<Elem>, e: Elem, t: seq<Elem>)
    requires Sorted(s) && !IsNaN(e.score) && Placed(s, e, t)
    ensures t == Inserted(s, e)
  {
    var k :| Stops(s, e, k) && t == PlacedAt(s, e, k);
    StopsOnce(s, e, k);
  }

  /** In any sequence the first place is one. */
  lemma InsertedIsPlaced(s: seq<Elem>, e: Elem)
    ensures Placed(s, e, Inserted(s, e))
  {
    assert Stops(s, e, LowerBound(s, e));
  }

  function Erased(s: seq<Elem>, key: Elem): seq<Elem> {
    if Present(s, key) then RemoveAt(s, LowerBound(s, key)) else s
  }

  lemma InsertedSorted(s: seq<Elem>, e: Elem)
    requires Sorted(s) && !IsNaN(e.score)
    ensures Sorted(Inserted(s, e))
  {
    var k, t := LowerBound(s, e), Inserted(s, e);
    LowerBoundSplits(s, e);
    forall i, j | 0 <= i < j < |t|
      ensures KeyLess(t[i], t[j])
    {
      if Present(s, e) {
        KeyEqualCongruent(s[k], e, if i == k then s[j] else s[i]);
      } else if i == k {
        KeyTrichotomy(e, s[j - 1]);
        PresentIff(s, e);
      }
    }
  }

  /** Insertion holds the new pair and every old pair with another key, and nothing else. */
  lemma InsertedElements(s: seq<Elem>, e: Elem, x: Elem)
    requires Sorted(s) && !IsNaN(e.score)
    ensures x in Inserted(s, e) <==> x == e || (x in s && !KeyEqual(x, e))
  {
    var k, t := LowerBound(s, e), Inserted(s, e);
    PresentIff(s, e);
    assert t[k] == e;
    if x in t && x != e {
      var j :| 0 <= j < |t| && t[j] == x;
      assert x == if Present(s, e) || j < k then s[j] else s[j - 1];
    }
    if x in s && !KeyEqual(x, e) {
      var j :| 0 <= j < |s| && s[j] == x;
      assert x == if Present(s, e) || j < k then t[j] else t[j + 1];
    }
  }

  lemma ErasedSorted(s: seq<Elem>, key: Elem)
    requires Sorted(s)
    ensures Sorted(Erased(s, key))
  {
  }

  /** Erasure drops exactly the pair with that key. */
  lemma ErasedElements(s: seq<Elem>, key: Elem, x: Elem)
    requires Sorted(s) && !IsNaN(key.score)
    ensures x in Erased(s, key) <==> x in s && !KeyEqual(x, key)
  {
    var k, t := LowerBound(s, key), Erased(s, key);
    PresentIff(s, key);
    if x in t {
      var j :| 0 <= j < |t| && t[j] == x;
      assert x == if Present(s, key) && j >= k then s[j + 1] else s[j];
    }
    if x in s && !KeyEqual(x, key) {
      var j :| 0 <= j < |s| && s[j] == x;
      assert x == if Present(s, key) && j > k then t[j - 1] else t[j];
    }
  }

  /** A sorted sequence is determined by its elements. */
  lemma {:induction false} SortedUnique(s: seq<Elem>, t: seq<Elem>)
    requires Sorted(s) && Sorted(t)
    requires forall x :: x in s <==> x in t
    ensures s == t
  {
    assert s != [] ==> s[0] in s;
    assert t != [] ==> t[0] in t;
    if s != [] {
      KeyTrichotomy(s[0], t[0]);
      var i :| 0 <= i < |t| && t[i] == s[0];
      var j :| 0 <= j < |s| && s[j] == t[0];
      assert s[0] == t[0];
      KeyTrichotomy(s[0], s[0]);
      forall x
        ensures x in s[1..] <==> x in t[1..]
      {
        assert x in s <==> x == s[0] || x in s[1..];
        assert x in t <==> x == t[0] || x in t[1..];
      }
      SortedUnique(s[1..], t[1..]);
      assert s == [s[0]] + s[1..] && t == [t[0]] + t[1..];
    }
  }
}
