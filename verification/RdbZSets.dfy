/** Sorted sets in a snapshot: what the loader's two inserts per pair build, for files of any origin. */
module RdbZSets {
  import opened Common
  import opened Float
  import opened SortedKeys
  import opened ZSetSpec
  import opened Snapshots
  import opened ZSkipList
  import opened ZSets

  lemma RebuiltMore(ps: seq<(Bytes, F64)>, n: nat, t: seq<Elem>, s: seq<Elem>)
    requires n < |ps| && Rebuilt(ps[..n], t) && |t| <= n && Placed(t, Elem(ps[n].1, ps[n].0), s)
    ensures Rebuilt(ps[..n + 1], s) && |s| <= n + 1
    ensures DictOf(ps[..n + 1]) == DictOf(ps[..n])[ps[n].0 := ps[n].1]
  {
    var qs := ps[..n + 1];
    assert qs[..|qs| - 1] == ps[..n] && qs[|qs| - 1] == ps[n];
    assert Rebuilt(qs[..|qs| - 1], t);
  }

  /** One pair more in the list. */
  method InsertPair(ps: seq<(Bytes, F64)>, j: nat, sl: SkipList)
    requires j < |ps| < TWO63 - 2 && sl.Built() && sl.Owned() && Rebuilt(ps[..j], sl.elems) && |sl.elems| <= j
    modifies sl, sl.repr
    ensures sl.Built() && sl.Owned() && Rebuilt(ps[..j + 1], sl.elems) && |sl.elems| <= j + 1
    ensures DictOf(ps[..j + 1]) == DictOf(ps[..j])[ps[j].0 := ps[j].1]
    ensures fresh(sl.repr - old(sl.repr))
  {
    ghost var t := sl.elems;
    var _ := sl.Insert(ps[j].1, ps[j].0);
    RebuiltMore(ps, j, t, sl.elems);
  }

  /** The loop: every pair goes into the map and into the list. */
  method InsertPairs(ps: seq<(Bytes, F64)>, sl: SkipList) returns (dict: Dict)
    requires |ps| < TWO63 - 2 && sl.Built() && sl.Owned() && sl.elems == []
    modifies sl, sl.repr
    ensures sl.Built() && sl.Owned() && Rebuilt(ps, sl.elems) && dict == DictOf(ps)
    ensures fresh(sl.repr - old(sl.repr))
  {
    dict := map[];
    for j := 0 to |ps|
      invariant sl.Built() && sl.Owned() && fresh(sl.repr - old(sl.repr))
      invariant Rebuilt(ps[..j], sl.elems) && |sl.elems| <= j && dict == DictOf(ps[..j])
    {
      dict := dict[ps[j].0 := ps[j].1];
      InsertPair(ps, j, sl);
    }
    assert ps[..|ps|] == ps;
  }

  /** The pairs go into a skip list built from empty, whatever levels are drawn, and into the map. */
  method RebuildZSet(ps: seq<(Bytes, F64)>) returns (dict: Dict, sl: SkipList)
    requires |ps| < TWO63 - 2
    ensures sl.Built() && sl.Owned() && Rebuilt(ps, sl.elems) && dict == DictOf(ps)
    ensures NoNaN(ps) ==> sl.Valid() && sl.elems == ListOf(ps)
    ensures fresh(sl) && fresh(sl.repr)
  {
    sl := new SkipList();
    dict := InsertPairs(ps, sl);
    if NoNaN(ps) {
      RebuiltOnce(ps, sl.elems);
      ListSorted(ps);
    }
  }

  /** A live sorted set, written in any order and rebuilt, has the same map and the same list. */
  method RebuildLive(z: ZSet, ps: seq<(Bytes, F64)>) returns (dict: Dict, sl: SkipList)
    requires z.Valid() && Lists(ps, z.dict, Same) && |ps| < TWO63 - 2
    ensures sl.Valid() && dict == z.dict && sl.elems == z.sl.elems
  {
    LiveBack(z.dict, z.sl.elems, ps);
    dict, sl := RebuildZSet(ps);
  }

  lemma LiveBack(d: Dict, s: seq<Elem>, ps: seq<(Bytes, F64)>)
    requires Agree(d, s) && Lists(ps, d, Same)
    ensures NoNaN(ps) && DictOf(ps) == d && ListOf(ps) == s
  {
    ListedClean(ps, d, s);
    forall m | m in d
      ensures !IsNaN(d[m])
    {
      AgreedScores(d, s, m);
    }
    ZSetBack(ps, d);
    AgreeUnique(d, s, ListOf(ps));
  }

  /** No member occurs with two scores that compare unequal. */
  ghost predicate Consistent(ps: seq<(Bytes, F64)>) {
    forall i, j :: 0 <= i < j < |ps| && ps[i].0 == ps[j].0 ==> Eq(ps[i].1, ps[j].1)
  }

  lemma OverwriteAgrees(d: Dict, s: seq<Elem>, m: Bytes, score: F64)
    requires Agree(d, s) && m in d && Eq(d[m], score)
    ensures Agree(d[m := score], Inserted(s, Elem(score, m)))
  {
    var key := Elem(score, m);
    InsertedSorted(s, key);
    forall e
      ensures e in Inserted(s, key) <==> e.member in d[m := score] && d[m := score][e.member] == e.score
    {
      InsertedElements(s, key, e);
    }
  }

  lemma {:induction false} DictScore(ps: seq<(Bytes, F64)>, m: Bytes) returns (i: nat)
    requires m in DictOf(ps)
    ensures i < |ps| && ps[i] == (m, DictOf(ps)[m])
    decreases |ps|
  {
    var n := |ps| - 1;
    if ps[n].0 == m {
      i := n;
    } else {
      i := DictScore(ps[..n], m);
    }
  }

  lemma {:induction false} ConsistentAgrees(ps: seq<(Bytes, F64)>)
    requires NoNaN(ps) && Consistent(ps)
    ensures Agree(DictOf(ps), ListOf(ps))
    decreases |ps|
  {
    if ps != [] {
      var n := |ps| - 1;
      var d, s := DictOf(ps[..n]), ListOf(ps[..n]);
      ConsistentAgrees(ps[..n]);
      if ps[n].0 in d {
        var i := DictScore(ps[..n], ps[n].0);
        OverwriteAgrees(d, s, ps[n].0, ps[n].1);
      } else {
        InsertAgrees(d, s, ps[n].0, ps[n].1);
      }
    }
  }

  /** A pair once inserted leaves a node with its key. */
  lemma {:induction false} KeyKept(ps: seq<(Bytes, F64)>, i: nat) returns (e: Elem)
    requires NoNaN(ps) && i < |ps|
    ensures e in ListOf(ps) && e.member == ps[i].0 && Eq(e.score, ps[i].1)
    decreases |ps|
  {
    var n := |ps| - 1;
    var key := Elem(ps[n].1, ps[n].0);
    ListSorted(ps[..n]);
    e := key;
    if i < n {
      e := KeyKept(ps[..n], i);
    }
    InsertedElements(ListOf(ps[..n]), key, e);
    if KeyEqual(e, key) {
      e := key;
    }
    InsertedElements(ListOf(ps[..n]), key, e);
  }

  lemma PlacedHolds(s: seq<Elem>, e: Elem, t: seq<Elem>)
    requires Placed(s, e, t)
    ensures e in t && forall x :: x in s && IsNaN(x.score) ==> x in t
  {
    var k: nat :| Stops(s, e, k) && t == PlacedAt(s, e, k);
    assert t[k] == e;
    forall x | x in s && IsNaN(x.score)
      ensures x in t
    {
      var j :| 0 <= j < |s| && s[j] == x;
      assert x == if j < k || |t| == |s| then t[j] else t[j + 1];
    }
  }

  /** A NaN score, once inserted, stays: no key is equal to it. */
  lemma {:induction false} NaNKept(ps: seq<(Bytes, F64)>, s: seq<Elem>, i: nat)
    requires Rebuilt(ps, s) && i < |ps| && IsNaN(ps[i].1)
    ensures Elem(ps[i].1, ps[i].0) in s
    decreases |ps|
  {
    var n := |ps| - 1;
    var key := Elem(ps[n].1, ps[n].0);
    var t :| Rebuilt(ps[..n], t) && Placed(t, key, s);
    PlacedHolds(t, key, s);
    if i < n {
      NaNKept(ps[..n], t, i);
    }
  }

  lemma AgreedPairs(ps: seq<(Bytes, F64)>)
    requires NoNaN(ps) && Agree(DictOf(ps), ListOf(ps))
    ensures Consistent(ps)
  {
    forall i, j | 0 <= i < j < |ps| && ps[i].0 == ps[j].0
      ensures Eq(ps[i].1, ps[j].1)
    {
      var a := KeyKept(ps, i);
      var b := KeyKept(ps, j);
    }
  }

  /**
  After a load, whatever levels are drawn, the two indexes agree exactly when the file gives no member a NaN score or
  two different scores; the loader checks neither.
  */
  lemma LoadedAgreeIff(ps: seq<(Bytes, F64)>, s: seq<Elem>)
    requires Rebuilt(ps, s)
    ensures Agree(DictOf(ps), s) <==> NoNaN(ps) && Consistent(ps)
  {
    if NoNaN(ps) {
      RebuiltOnce(ps, s);
      if Consistent(ps) {
        ConsistentAgrees(ps);
      }
      if Agree(DictOf(ps), s) {
        AgreedPairs(ps);
      }
    } else {
      var i :| 0 <= i < |ps| && IsNaN(ps[i].1);
      NaNKept(ps, s, i);
    }
  }
}
