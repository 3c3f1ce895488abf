/** Whole runs of the mutating operations, for every sequence of level draws. */
module SkipListRuns {
  import opened Common
  import opened Float
  import opened SortedKeys
  import opened SortedRanges
  import opened ZSkipList

  datatype Op = InsertOp(e: Elem) | EraseOp(key: Elem) | PopMinOp | PopMaxOp {
    predicate Admissible() {
      (InsertOp? ==> !IsNaN(e.score)) && (EraseOp? ==> !IsNaN(key.score))
    }
  }

  function Apply(s: seq<Elem>, op: Op): seq<Elem> {
    match op
    case InsertOp(e) => Inserted(s, e)
    case EraseOp(key) => Erased(s, key)
    case PopMinOp => if s == [] then [] else s[1..]
    case PopMaxOp => if s == [] then [] else s[..|s| - 1]
  }

  function ApplyAll(ops: seq<Op>): seq<Elem> {
    if ops == [] then [] else Apply(ApplyAll(ops[..|ops| - 1]), ops[|ops| - 1])
  }

  lemma {:induction false} ApplyAllBound(ops: seq<Op>)
    ensures |ApplyAll(ops)| <= |ops|
  {
    if ops != [] {
      ApplyAllBound(ops[..|ops| - 1]);
    }
  }

  method Step(sl: SkipList, op: Op)
    requires sl.Valid() && |sl.elems| < TWO63 - 2 && op.Admissible()
    modifies sl, sl.repr
    ensures sl.Valid() && sl.elems == Apply(old(sl.elems), op)
    ensures fresh(sl.repr - old(sl.repr))
  {
    match op {
      case InsertOp(e) =>
        var _ := sl.Insert(e.score, e.member);
      case EraseOp(key) =>
        var _ := sl.Erase(key.score, key.member);
      case PopMinOp =>
        var _ := sl.PopMin();
      case PopMaxOp =>
        var _ := sl.PopMax();
    }
  }

  /** After any run the list is valid and its content is that of the same run on the sorted sequence. */
  method Run(ops: seq<Op>) returns (sl: SkipList)
    requires |ops| < TWO63 - 2 && forall i :: 0 <= i < |ops| ==> ops[i].Admissible()
    ensures sl.Valid() && sl.elems == ApplyAll(ops)
    ensures fresh(sl) && fresh(sl.repr)
  {
    if ops == [] {
      sl := new SkipList();
    } else {
      ApplyAllBound(ops[..|ops| - 1]);
      sl := Run(ops[..|ops| - 1]);
      Step(sl, ops[|ops| - 1]);
    }
  }

  lemma {:induction false} RunSorted(ops: seq<Op>)
    requires forall o :: o in ops ==> o.Admissible()
    ensures Sorted(ApplyAll(ops))
    decreases |ops|
  {
    if ops != [] {
      var n := |ops| - 1;
      RunSorted(ops[..n]);
      assert ops[n] in ops;
      match ops[n] {
        case InsertOp(e) => InsertedSorted(ApplyAll(ops[..n]), e);
        case EraseOp(key) => ErasedSorted(ApplyAll(ops[..n]), key);
        case _ =>
      }
    }
  }

  /** What a run means as a set: membership after one more operation, in terms of membership before it. */
  lemma RunElements(ops: seq<Op>, op: Op, x: Elem)
    requires (forall o :: o in ops ==> o.Admissible()) && op.Admissible()
    ensures var s, t := ApplyAll(ops), ApplyAll(ops + [op]);
            match op
            case InsertOp(e) => x in t <==> x == e || (x in s && !KeyEqual(x, e))
            case EraseOp(key) => x in t <==> x in s && !KeyEqual(x, key)
            case PopMinOp => x in t <==> x in s && exists y :: y in s && KeyLess(y, x)
            case PopMaxOp => x in t <==> x in s && exists y :: y in s && KeyLess(x, y)
  {
    var s := ApplyAll(ops);
    RunSorted(ops);
    assert (ops + [op])[..|ops|] == ops;
    match op {
      case InsertOp(e) => InsertedElements(s, e, x);
      case EraseOp(key) => ErasedElements(s, key, x);
      case PopMinOp => NotLeast(s, x);
      case PopMaxOp => NotGreatest(s, x);
    }
  }

  lemma IndexOrder(s: seq<Elem>, i: nat, j: nat)
    requires Sorted(s) && i < |s| && j < |s| && KeyLess(s[i], s[j])
    ensures i < j
  {
    KeyTrichotomy(s[j], s[i]);
  }

  lemma NotLeast(s: seq<Elem>, x: Elem)
    requires Sorted(s)
    ensures s != [] ==> (x in s[1..] <==> x in s && exists y :: y in s && KeyLess(y, x))
  {
    if s != [] && x in s[1..] {
      var i :| 1 <= i < |s| && s[i] == x;
      assert s[0] in s && KeyLess(s[0], s[i]);
    }
    if y :| y in s && KeyLess(y, x) && x in s {
      var i, j :| 0 <= i < |s| && s[i] == x && 0 <= j < |s| && s[j] == y;
      IndexOrder(s, j, i);
      assert s[1..][i - 1] == x;
    }
  }

  lemma NotGreatest(s: seq<Elem>, x: Elem)
    requires Sorted(s)
    ensures s != [] ==> (x in s[..|s| - 1] <==> x in s && exists y :: y in s && KeyLess(x, y))
  {
    var n := |s| - 1;
    if s != [] && x in s[..n] {
      var i :| 0 <= i < n && s[i] == x;
      assert s[n] in s && KeyLess(s[i], s[n]);
    }
    if y :| y in s && KeyLess(x, y) && x in s {
      var i, j :| 0 <= i < |s| && s[i] == x && 0 <= j < |s| && s[j] == y;
      IndexOrder(s, i, j);
      assert s[..n][i] == x;
    }
  }

  /** The rank of a key leads back to it: the range at that rank, from either end, is the stored pair alone. */
  method FindByRank(sl: SkipList, score: F64, member: Bytes) returns (up: seq<Elem>, down: seq<Elem>)
    requires sl.Valid() && !IsNaN(score)
    ensures var key := Elem(score, member);
            if Present(sl.elems, key) then up == down == [sl.elems[LowerBound(sl.elems, key)]] && KeyEqual(up[0], key)
            else up == down == []
  {
    up, down := [], [];
    var r := sl.Rank(score, member);
    var q := sl.RevRank(score, member);
    if r != SIZE_MAX {
      WindowAtRank(sl.elems, r);
      up := sl.RangeByRank(r, r, false);
      down := sl.RangeByRank(q, q, true);
    }
  }
}
