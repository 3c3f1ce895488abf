/**
The skip list of a sorted set.  The ghost fields record the level-0 order of the nodes and mirror their link
slots; Valid ties them to the heap and to the sorted sequence `elems`, the abstract value of the list.
*/
module ZSkipList {
  import opened Common
  import opened Float
  import opened SkipLinks
  import opened SortedKeys
  import opened SortedRanges
  import opened Windows

  const MAX_LEVEL: nat := 32

  function ElemOf(n: Node): Elem
    reads n
  {
    Elem(n.score, n.member)
  }

  /** Along level i from position p0 to p only keys below `key` were stepped onto. */
  ghost predicate Passed(hs: seq<nat>, s: seq<Elem>, key: Elem, i: nat, p0: nat, p: nat)
    requires |hs| == |s| + 1
  {
    forall e {:trigger KeyLess(s[e], key)} :: p0 <= e < p && e < |s| && hs[e + 1] > i ==> KeyLess(s[e], key)
  }

  lemma PassedMore(hs: seq<nat>, s: seq<Elem>, key: Elem, i: nat, p0: nat, p: nat)
    requires |hs| == |s| + 1 && p0 <= p < |hs| && Passed(hs, s, key, i, p0, p)
    requires NextTall(hs, p, i) < |hs| && KeyLess(s[NextTall(hs, p, i) - 1], key)
    ensures Passed(hs, s, key, i, p0, NextTall(hs, p, i))
  {
  }

  /** At level j the search went no further than u, because the next node there is past p and not below `key`. */
  ghost predicate Stopped(hs: seq<nat>, s: seq<Elem>, key: Elem, j: nat, u: nat, p: nat)
    requires |hs| == |s| + 1
  {
    u <= p < |hs| && hs[u] > j &&
    var q := NextTall(hs, u, j);
    q > p && (q < |hs| ==> !KeyLess(s[q - 1], key))
  }

  /** A walk at a lower level does not pass a node that stopped the search higher up. */
  lemma StoppedStays(hs: seq<nat>, s: seq<Elem>, key: Elem, i: nat, us: seq<nat>, level: nat, p: nat, p': nat)
    requires |hs| == |s| + 1 && level <= |us| && p <= p' < |hs| && Passed(hs, s, key, i, p, p')
    requires forall j :: i < j < level ==> Stopped(hs, s, key, j, us[j], p)
    ensures forall j :: i < j < level ==> Stopped(hs, s, key, j, us[j], p')
  {
  }

  /** Where the search stops at level 0. */
  lemma SearchPlace(hs: seq<nat>, s: seq<Elem>, key: Elem, us: seq<nat>, level: nat, k: nat)
    requires |hs| == |s| + 1 < TWO63 && 0 < level <= |us| && k <= |s| && (k > 0 ==> KeyLess(s[k - 1], key))
    requires forall p :: 0 < p < |hs| ==> 0 < hs[p] <= level
    requires forall j :: 0 <= j < level ==> Stopped(hs, s, key, j, us[j], k)
    requires level == 1 ==> Passed(hs, s, key, 0, 0, k)
    ensures Preds(hs, k, us, level) && Stops(s, key, k)
    ensures (Sorted(s) && !IsNaN(key.score)) || level == 1 ==> k == LowerBound(s, key)
  {
    assert Stopped(hs, s, key, 0, us[0], k);
    assert Preds(hs, k, us, level);
    PredAtLevelZero(hs, k, us, level);
    NextAtLevelZero(hs, k);
    if Sorted(s) && !IsNaN(key.score) {
      StopsOnce(s, key, k);
    }
    FirstPlace(hs, s, key, level, k);
  }

  lemma FirstPlace(hs: seq<nat>, s: seq<Elem>, key: Elem, level: nat, k: nat)
    requires |hs| == |s| + 1 && Stops(s, key, k) && (level == 1 ==> Passed(hs, s, key, 0, 0, k))
    requires forall p :: 0 < p < |hs| ==> 0 < hs[p]
    ensures level == 1 ==> k == LowerBound(s, key)
  {
    var m := LowerBound(s, key);
    assert m < |s| ==> hs[m + 1] > 0;
  }

  class SkipList {
    var header: Node
    var level: nat
    var length: U64

    ghost var elems: seq<Elem>
    ghost var nodes: seq<Node>          // nodes[0] is the header
    ghost var heights: seq<nat>
    ghost var fwds: seq<seq<Node?>>
    ghost var spans: seq<seq<U64>>
    ghost var repr: set<Node>           // every node that was ever linked in

    /** The ghost slots are those of the nodes, and no two positions share a node. */
    ghost predicate Mirrored()
      reads this, nodes
    {
      && Shaped(nodes, heights, fwds, spans)
      && (forall p :: 0 <= p < |nodes| ==> nodes[p].forward == fwds[p])
      && (forall p :: 0 <= p < |nodes| ==> nodes[p].span == spans[p])
      && Distinct(nodes)
    }

    /** Node p + 1 carries element p. */
    ghost predicate Carries()
      reads this, nodes
    {
      && |nodes| == |elems| + 1
      && (forall p :: 0 < p <= |elems| ==>
            nodes[p].score == elems[p - 1].score && nodes[p].member == elems[p - 1].member)
    }

    /** The header has every level; the other nodes have at least one and at most `level`. */
    ghost predicate Heights()
      reads this
    {
      && |heights| == |fwds| > 0 && heights[0] == MAX_LEVEL && 1 <= level <= MAX_LEVEL
      && (forall p :: 0 < p < |heights| ==> 1 <= heights[p] <= level)
    }

    /** The list is well linked and carries `elems`; what Valid asks for beyond the order of the keys. */
    ghost predicate Built()
      reads this, nodes
    {
      && Mirrored() && Carries() && Heights()
      && nodes[0] == header && length == |elems| && |nodes| < TWO63
      && Linked(nodes, heights, fwds, spans)
      && (level > 1 ==> fwds[0][level - 1] != null)
    }

    ghost predicate Valid()
      reads this, nodes
    {
      Built() && Sorted(elems) && Owned()
    }

    /** The linked nodes are among those this list may change. */
    ghost predicate Owned()
      reads this
    {
      forall p :: 0 <= p < |nodes| ==> nodes[p] in repr
    }

    constructor ()
      ensures Valid() && elems == [] && level == 1
      ensures fresh(repr)
    {
      header := new Node(0, [], MAX_LEVEL);
      level, length := 1, 0;
      new;
      elems, nodes, heights := [], [header], [MAX_LEVEL];
      fwds, spans := [header.forward], [header.span];
      repr := {header};
    }

    /** What a non-null or null link at level i of position p says about the abstract value. */
    lemma LinkAt(p: nat, i: nat)
      requires Built() && p < |nodes| && i < heights[p]
      ensures p < TWO63
      ensures var q := NextTall(heights, p, i);
              if nodes[p].forward[i] == null then q == |nodes|
              else q < |nodes| && nodes[p].forward[i] == nodes[q] && nodes[p].span[i] == q - p
                   && ElemOf(nodes[q]) == elems[q - 1]
    {
      assert LinkOk(nodes, heights, p, i, fwds[p][i], spans[p][i]);
      var q := NextTall(heights, p, i);
      if q < |nodes| {
        assert ElemOf(nodes[q - 1 + 1]) == elems[q - 1];
      }
    }

    /** The walk along level i from node x0, at position p0, that stops before the first key not below `key`. */
    method WalkBelow(key: Elem, x0: Node, i: nat, rank0: U64, ghost p0: nat)
      returns (x: Node, rank: U64, ghost p: nat)
      requires Built() && p0 < |nodes| && i < heights[p0] && x0 == nodes[p0] && rank0 == p0
      ensures p0 <= p < |nodes| && Stopped(heights, elems, key, i, p, p) && Passed(heights, elems, key, i, p0, p)
      ensures x == nodes[p] && rank == p && (p > p0 ==> KeyLess(elems[p - 1], key))
    {
      x, rank, p := x0, rank0, p0;
      while x.forward[i] != null && KeyLess(ElemOf(x.forward[i]), key)
        invariant p0 <= p < |nodes| && i < heights[p] && x == nodes[p] && rank == p
        invariant Passed(heights, elems, key, i, p0, p) && (p > p0 ==> KeyLess(elems[p - 1], key))
        decreases |nodes| - p
      {
        StepsBelow(key, i, p0, p);
        x, rank, p := x.forward[i], WrapAdd(rank, x.span[i]), NextTall(heights, p, i);
      }
      StopsHere(key, i, p);
    }

    lemma StepsBelow(key: Elem, i: nat, p0: nat, p: nat)
      requires Built() && p0 <= p < |nodes| && i < heights[p] && Passed(heights, elems, key, i, p0, p)
      requires nodes[p].forward[i] != null && KeyLess(ElemOf(nodes[p].forward[i]), key)
      ensures var q := NextTall(heights, p, i);
              && p < TWO63 && q < |nodes| && nodes[p].forward[i] == nodes[q] && nodes[p].span[i] == q - p
              && Passed(heights, elems, key, i, p0, q) && KeyLess(elems[q - 1], key)
    {
      LinkAt(p, i);
      PassedMore(heights, elems, key, i, p0, p);
    }

    lemma StopsHere(key: Elem, i: nat, p: nat)
      requires Built() && p < |nodes| && i < heights[p]
      requires nodes[p].forward[i] != null ==> !KeyLess(ElemOf(nodes[p].forward[i]), key)
      ensures Stopped(heights, elems, key, i, p, p)
    {
      LinkAt(p, i);
    }

    /**
    The descent shared by FindNode and Insert: per level, the last node before the place k where the search stops.
    Nothing is asked of the order of the keys; in a sorted list, and in a list of one level, k is the first place.
    */
    method FindPredecessors(key: Elem)
      returns (update: seq<Node?>, rank: seq<U64>, ghost us: seq<nat>, ghost k: nat)
      requires Built()
      ensures |update| == |rank| == |us| == MAX_LEVEL
      ensures Preds(heights, k, us, level) && Stops(elems, key, k)
      ensures (Sorted(elems) && !IsNaN(key.score)) || level == 1 ==> k == LowerBound(elems, key)
      ensures forall i :: 0 <= i < level ==> update[i] == nodes[us[i]] && rank[i] == us[i]
    {
      update, rank, us := seq(MAX_LEVEL, _ => null), seq(MAX_LEVEL, _ => 0), seq(MAX_LEVEL, _ => 0);
      var x, i, r := header, level, 0;
      k := 0;
      while i > 0
        invariant 0 <= i <= level && Searched(key, update, rank, us, i, k)
        invariant x == nodes[k] && heights[k] >= i && r == k
      {
        i := i - 1;
        ghost var p := k;
        x, r, k := WalkBelow(key, x, i, r, k);
        SearchedStep(key, update, rank, us, i, p, k, x, r);
        rank, update, us := rank[i := r], update[i := x], us[i := k];
      }
      SearchPlace(heights, elems, key, us, level, k);
    }

    /** The descent has come down to level i and to position k, with the levels from i up recorded. */
    ghost predicate Searched(key: Elem, update: seq<Node?>, rank: seq<U64>, us: seq<nat>, i: nat, k: nat)
      reads this
    {
      && |heights| == |nodes| == |elems| + 1 && level <= MAX_LEVEL == |update| == |rank| == |us|
      && k < |nodes| && (k > 0 ==> KeyLess(elems[k - 1], key))
      && (if i == level then k == 0 else i == 0 && level == 1 ==> Passed(heights, elems, key, 0, 0, k))
      && (forall j :: i <= j < level ==> Stopped(heights, elems, key, j, us[j], k))
      && (forall j :: i <= j < level ==> us[j] < |nodes| && update[j] == nodes[us[j]] && rank[j] == us[j])
    }

    lemma SearchedStep(key: Elem, update: seq<Node?>, rank: seq<U64>, us: seq<nat>,
                       i: nat, p: nat, k: nat, x: Node, r: U64)
      requires Searched(key, update, rank, us, i + 1, p) && i < level && p <= k < |nodes|
      requires Stopped(heights, elems, key, i, k, k) && Passed(heights, elems, key, i, p, k)
      requires (k > p ==> KeyLess(elems[k - 1], key)) && x == nodes[k] && r == k
      ensures Searched(key, update[i := x], rank[i := r], us[i := k], i, k)
    {
      StoppedStays(heights, elems, key, i, us, level, p, k);
    }

    /** The node with that key, or null, together with its predecessors. */
    method FindNode(key: Elem) returns (x: Node?, update: seq<Node?>, rank: seq<U64>, ghost us: seq<nat>, ghost k: nat)
      requires Built()
      ensures |update| == |rank| == |us| == MAX_LEVEL
      ensures Preds(heights, k, us, level) && Stops(elems, key, k)
      ensures (Sorted(elems) && !IsNaN(key.score)) || level == 1 ==> k == LowerBound(elems, key)
      ensures forall i :: 0 <= i < level ==> update[i] == nodes[us[i]] && rank[i] == us[i]
      ensures x != null <==> k < |elems| && KeyEqual(elems[k], key)
      ensures x != null ==> x == nodes[k + 1] && KeyEqual(ElemOf(x), key)
    {
      update, rank, us, k := FindPredecessors(key);
      PredAtLevelZero(heights, k, us, level);
      LinkAt(k, 0);
      var cand := update[0].forward[0];
      x := if cand != null && KeyEqual(ElemOf(cand), key) then cand else null;
    }

    method RandomLevel() returns (h: nat)
      ensures 1 <= h <= MAX_LEVEL
    {
      h := 1;
      var coin: bool := *;
      while h < MAX_LEVEL && coin
        invariant 1 <= h <= MAX_LEVEL
      {
        h := h + 1;
        coin := *;
      }
    }

    /** Levels opened by a tall node start at the header, whose null link there gets the span `length`. */
    method OpenLevels(h: nat, update0: seq<Node?>, rank0: seq<U64>, ghost us0: seq<nat>)
      returns (update: seq<Node?>, rank: seq<U64>, ghost us: seq<nat>)
      requires Mirrored() && Heights() && nodes[0] == header && level < h <= MAX_LEVEL
      requires |update0| == |rank0| == |us0| == MAX_LEVEL
      modifies header`span, this`spans
      ensures Mirrored()
      ensures |update| == |rank| == |us| == MAX_LEVEL
      ensures forall i :: 0 <= i < MAX_LEVEL && !(level <= i < h) ==>
                update[i] == update0[i] && rank[i] == rank0[i] && us[i] == us0[i]
      ensures forall i :: level <= i < h ==> update[i] == header && rank[i] == 0 && us[i] == 0
      ensures forall p, i :: 0 <= p < |nodes| && 0 <= i < heights[p] && !(p == 0 && level <= i < h) ==>
                spans[p][i] == old(spans)[p][i]
    {
      update, rank, us := update0, rank0, us0;
      for i := level to h
        invariant Mirrored()
        invariant |update| == |rank| == |us| == MAX_LEVEL
        invariant forall j :: 0 <= j < MAX_LEVEL && !(level <= j < i) ==>
                    update[j] == update0[j] && rank[j] == rank0[j] && us[j] == us0[j]
        invariant forall j :: level <= j < i ==> update[j] == header && rank[j] == 0 && us[j] == 0
        invariant forall p, j :: 0 <= p < |nodes| && 0 <= j < heights[p] && !(p == 0 && level <= j < i) ==>
                    spans[p][j] == old(spans)[p][j]
      {
        rank, update, us := rank[i := 0], update[i := header], us[i := 0];
        header.span := header.span[i := length];
        spans := spans[0 := header.span];
      }
    }

    /** One round of the splicing loop: `pred`, at position u, hands its level-i link to `node` and points to it. */
    method LinkAtLevel(node: Node, pred: Node, i: nat, jump: U64, ghost u: nat)
      requires Mirrored() && node !in nodes && i < |node.forward| == |node.span|
      requires u < |nodes| && pred == nodes[u] && i < heights[u] && jump < TWO63
      modifies pred`forward, pred`span, node`forward, node`span, this`fwds, this`spans
      ensures Mirrored()
      ensures fwds == Put(old(fwds), u, i, node)
      ensures spans == Put<U64>(old(spans), u, i, WrapAdd(jump, 1))
      ensures node.forward == old(node.forward)[i := old(fwds)[u][i]]
      ensures node.span == old(node.span)[i := WrapSub(old(spans)[u][i], jump)]
    {
      node.forward := node.forward[i := pred.forward[i]];
      pred.forward := pred.forward[i := node];
      node.span := node.span[i := WrapSub(pred.span[i], jump)];
      pred.span := pred.span[i := WrapAdd(jump, 1)];
      fwds, spans := fwds[u := pred.forward], spans[u := pred.span];
    }

    /** The splicing loop over the levels of the new node. */
    method LinkTouched(node: Node, h: nat, update: seq<Node?>, rank: seq<U64>, ghost us: seq<nat>, ghost k: nat)
      requires Mirrored() && node !in nodes && |node.forward| == |node.span| == h
      requires 0 < h <= |update| == |rank| == |us| && us[0] == k < |nodes| < TWO63
      requires forall i :: 0 <= i < h ==> us[i] <= k && i < heights[us[i]]
      requires forall i :: 0 <= i < h ==> update[i] == nodes[us[i]] && rank[i] == us[i]
      modifies nodes`forward, nodes`span, node`forward, node`span, this`fwds, this`spans
      ensures Mirrored() && |node.forward| == |node.span| == h
      ensures Spliced(heights, k, us, h, node, h, old(fwds), old(spans), fwds, spans)
      ensures forall i :: 0 <= i < h ==>
                node.forward[i] == old(fwds)[us[i]][i] && node.span[i] == WrapSub(old(spans)[us[i]][i], k - us[i])
    {
      for i := 0 to h
        invariant Mirrored() && |node.forward| == |node.span| == h
        invariant Spliced(heights, k, us, h, node, i, old(fwds), old(spans), fwds, spans)
        invariant forall j :: 0 <= j < i ==>
                    node.forward[j] == old(fwds)[us[j]][j] && node.span[j] == WrapSub(old(spans)[us[j]][j], k - us[j])
      {
        SpliceOneMore(heights, k, us, h, node, i, old(fwds), old(spans), fwds, spans);
        LinkAtLevel(node, update[i], i, rank[0] - rank[i], us[i]);
      }
    }

    /** One round of the loop below: the link of `pred`, at position u, grows by one at level i. */
    method BumpAtLevel(pred: Node, i: nat, ghost u: nat)
      requires Mirrored() && u < |nodes| && pred == nodes[u] && i < heights[u]
      modifies pred`span, this`spans
      ensures Mirrored() && spans == Put<U64>(old(spans), u, i, WrapAdd(old(spans)[u][i], 1))
    {
      pred.span := pred.span[i := WrapAdd(pred.span[i], 1)];
      spans := spans[u := pred.span];
    }

    /** Links that pass over the new node grow by one. */
    method BumpUntouched(h: nat, update: seq<Node?>, ghost us: seq<nat>)
      requires Mirrored() && h <= level <= |update| == |us|
      requires forall i :: h <= i < level ==> us[i] < |nodes| && i < heights[us[i]] && update[i] == nodes[us[i]]
      modifies nodes`span, this`spans
      ensures Mirrored() && Bumped(heights, us, h, level, old(spans), spans)
    {
      ghost var s0 := spans;
      for i := h to level
        invariant Mirrored() && Bumped(heights, us, h, i, s0, spans)
      {
        BumpOneMore(heights, us, h, i, s0, spans);
        BumpAtLevel(update[i], i, us[i]);
      }
    }

    /** Allocates the new node and threads it through its own levels. */
    method SpliceIn(key: Elem, h: nat, update: seq<Node?>, rank: seq<U64>, ghost us: seq<nat>, ghost k: nat)
      returns (node: Node)
      requires Mirrored() && Heights() && 1 <= h <= level
      requires |update| == |rank| == |us| == MAX_LEVEL
      requires Preds(heights, k, us, level)
      requires forall i :: 0 <= i < level ==> update[i] == nodes[us[i]] && rank[i] == us[i]
      modifies nodes`forward, nodes`span, this`fwds, this`spans
      ensures fresh(node) && Mirrored() && ElemOf(node) == key && |node.forward| == |node.span| == h
      ensures Spliced(heights, k, us, h, node, h, old(fwds), old(spans), fwds, spans)
      ensures forall i :: 0 <= i < h ==>
                node.forward[i] == old(fwds)[us[i]][i] && node.span[i] == WrapSub(old(spans)[us[i]][i], k - us[i])
    {
      PredAtLevelZero(heights, k, us, level);
      node := new Node(key.score, key.member, h);
      LinkTouched(node, h, update, rank, us, k);
    }

    /** SpliceIn followed by the loop over the levels above the node: all links are right once `node` is counted in. */
    method SpliceAndBump(key: Elem, h: nat, update: seq<Node?>, rank: seq<U64>, ghost us: seq<nat>, ghost k: nat)
      returns (node: Node)
      requires Mirrored() && Heights() && 1 <= h <= level && Linked(nodes, heights, fwds, spans)
      requires |update| == |rank| == |us| == MAX_LEVEL
      requires Preds(heights, k, us, level)
      requires forall i :: 0 <= i < level ==> update[i] == nodes[us[i]] && rank[i] == us[i]
      requires fwds[0][level - 1] == null ==> h == level
      modifies nodes`forward, nodes`span, this`fwds, this`spans
      ensures fresh(node) && Mirrored() && ElemOf(node) == key && |node.forward| == |node.span| == h
      ensures Linked(InsertAt(nodes, k + 1, node), InsertAt<nat>(heights, k + 1, h),
                     InsertAt(fwds, k + 1, node.forward), InsertAt<seq<U64>>(spans, k + 1, node.span))
      ensures fwds[0][level - 1] != null
    {
      node := SpliceIn(key, h, update, rank, us, k);
      ghost var s1 := spans;
      BumpUntouched(h, update, us);
      InsertionLinks(nodes, heights, old(fwds), old(spans), k, us, level, h, node,
                     fwds, s1, spans, node.forward, node.span);
    }

    /** Gives `node` position k + 1 in the ghost order. */
    ghost method Renumber(node: Node, h: nat, k: nat)
      requires Mirrored() && node !in nodes && k < |nodes| && |node.forward| == |node.span| == h
      modifies this`nodes, this`heights, this`fwds, this`spans, this`repr
      ensures Mirrored() && repr == old(repr) + {node} && (old(Owned()) ==> Owned())
      ensures nodes == InsertAt(old(nodes), k + 1, node) && heights == InsertAt<nat>(old(heights), k + 1, h)
      ensures fwds == InsertAt(old(fwds), k + 1, node.forward)
      ensures spans == InsertAt<seq<U64>>(old(spans), k + 1, node.span)
    {
      DistinctInsert(nodes, k + 1, node);
      InsertedShape(nodes, heights, k, h, node, fwds, spans, node.forward, node.span);
      repr := repr + {node};
      nodes, heights := InsertAt(nodes, k + 1, node), InsertAt<nat>(heights, k + 1, h);
      fwds, spans := InsertAt(fwds, k + 1, node.forward), InsertAt<seq<U64>>(spans, k + 1, node.span);
    }

    /** And `key` the place of an element. */
    ghost method Enlist(node: Node, h: nat, k: nat, key: Elem)
      requires Mirrored() && Carries() && Heights() && node !in nodes && ElemOf(node) == key && k <= |elems|
      requires 1 <= h <= level && |node.forward| == |node.span| == h
      modifies this`nodes, this`heights, this`fwds, this`spans, this`elems, this`repr
      ensures Mirrored() && Carries() && Heights() && repr == old(repr) + {node} && (old(Owned()) ==> Owned())
      ensures nodes == InsertAt(old(nodes), k + 1, node) && heights == InsertAt<nat>(old(heights), k + 1, h)
      ensures fwds == InsertAt(old(fwds), k + 1, node.forward)
      ensures spans == InsertAt<seq<U64>>(old(spans), k + 1, node.span)
      ensures elems == InsertAt(old(elems), k, key)
    {
      Renumber(node, h, k);
      elems := InsertAt(elems, k, key);
    }

    /** Counts the new node in. */
    method Admit(node: Node, ghost h: nat, ghost k: nat, ghost key: Elem)
      requires Mirrored() && Carries() && Heights() && node !in nodes && ElemOf(node) == key && k <= |elems|
      requires nodes[0] == header && length == |elems| < TWO63 - 2
      requires level > 1 ==> fwds[0][level - 1] != null
      requires 1 <= h <= level && |node.forward| == |node.span| == h
      requires Linked(InsertAt(nodes, k + 1, node), InsertAt<nat>(heights, k + 1, h),
                      InsertAt(fwds, k + 1, node.forward), InsertAt<seq<U64>>(spans, k + 1, node.span))
      modifies this`nodes, this`heights, this`fwds, this`spans, this`elems, this`length, this`repr
      ensures Built()
      ensures elems == InsertAt(old(elems), k, key)
      ensures repr == old(repr) + {node} && (old(Owned()) ==> Owned())
    {
      Enlist(node, h, k, key);
      length := WrapAdd(length, 1);
    }

    /** Inserts a node of height h carrying `key` after position k. */
    method InsertNode(key: Elem, h: nat, update: seq<Node?>, rank: seq<U64>, ghost us: seq<nat>, ghost k: nat)
      requires Mirrored() && Carries() && Heights() && Linked(nodes, heights, fwds, spans)
      requires nodes[0] == header && length == |elems| < TWO63 - 2
      requires 1 <= h <= level && |update| == |rank| == |us| == MAX_LEVEL
      requires Preds(heights, k, us, level)
      requires forall i :: 0 <= i < level ==> update[i] == nodes[us[i]] && rank[i] == us[i]
      requires fwds[0][level - 1] == null ==> h == level
      modifies this, nodes
      ensures Built()
      ensures elems == InsertAt(old(elems), k, key)
      ensures fresh(repr - old(repr)) && (old(Owned()) ==> Owned())
    {
      var node := SpliceAndBump(key, h, update, rank, us, k);
      Admit(node, h, k, key);
    }

    /** Raises `level` to h before a node that tall goes in. */
    method Raise(h: nat, update0: seq<Node?>, rank0: seq<U64>, ghost us0: seq<nat>, ghost k: nat)
      returns (update: seq<Node?>, rank: seq<U64>, ghost us: seq<nat>)
      requires Built() && |update0| == |rank0| == |us0| == MAX_LEVEL && level < h <= MAX_LEVEL
      requires Preds(heights, k, us0, level)
      requires forall i :: 0 <= i < level ==> update0[i] == nodes[us0[i]] && rank0[i] == us0[i]
      modifies this`level, this`spans, header`span
      ensures Mirrored() && Carries() && Heights() && Linked(nodes, heights, fwds, spans)
      ensures level == h && |update| == |rank| == |us| == MAX_LEVEL && Preds(heights, k, us, level)
      ensures forall i :: 0 <= i < level ==> update[i] == nodes[us[i]] && rank[i] == us[i]
    {
      ghost var s0 := spans;
      update, rank, us := OpenLevels(h, update0, rank0, us0);
      OpenKeepsLinked(nodes, heights, fwds, s0, spans, level);
      OpenPreds(heights, k, us0, us, level, h);
      level := h;
    }

    /** The node found carries a key equal to `key`: only its score pattern can differ (+0 against -0). */
    method Overwrite(cand: Node, key: Elem, ghost k: nat)
      requires Built() && k < |elems| && cand == nodes[k + 1] && key.member == cand.member
      modifies cand`score, this`elems
      ensures Built() && elems == old(elems)[k := key]
    {
      cand.score := key.score;
      elems := elems[k := key];
    }

    /** Adds a node of a drawn height after position k. */
    method InsertFresh(key: Elem, update0: seq<Node?>, rank0: seq<U64>, ghost us0: seq<nat>, ghost k: nat)
      requires Built() && Owned() && |elems| < TWO63 - 2 && |update0| == |rank0| == |us0| == MAX_LEVEL
      requires Preds(heights, k, us0, level)
      requires forall i :: 0 <= i < level ==> update0[i] == nodes[us0[i]] && rank0[i] == us0[i]
      modifies this, repr
      ensures Built() && Owned() && elems == InsertAt(old(elems), k, key)
      ensures fresh(repr - old(repr))
    {
      var update, rank := update0, rank0;
      ghost var us := us0;
      var h := RandomLevel();
      if h > level {
        update, rank, us := Raise(h, update, rank, us, k);
      }
      InsertNode(key, h, update, rank, us, k);
    }

    /**
    Inserts (score, member), or overwrites the score of the equal key; true when a node was added.  The links stay
    right for every score; in a sorted list a score that is not NaN goes to its place in the order.
    */
    method Insert(score: F64, member: Bytes) returns (added: bool)
      requires Built() && Owned() && |elems| < TWO63 - 2
      modifies this, repr
      ensures Built() && Owned() && Placed(old(elems), Elem(score, member), elems)
      ensures added == (|elems| > |old(elems)|)
      ensures (Sorted(old(elems)) && !IsNaN(score)) || old(level) == 1 ==>
                elems == Inserted(old(elems), Elem(score, member))
      ensures Sorted(old(elems)) && !IsNaN(score) ==> Valid() && added == !Present(old(elems), Elem(score, member))
      ensures fresh(repr - old(repr))
    {
      var key := Elem(score, member);
      if Sorted(elems) && !IsNaN(score) {
        InsertedSorted(elems, key);
      }
      var cand, update, rank;
      ghost var us, k;
      cand, update, rank, us, k := FindNode(key);
      added := cand == null;
      if added {
        InsertFresh(key, update, rank, us, k);
      } else {
        Overwrite(cand, key, k);
      }
    }

    /** One round of DeleteNode's loop at level i, for the predecessor at position u. */
    method UnlinkAtLevel(x: Node, pred: Node, i: nat, ghost u: nat, ghost k: nat)
      requires Mirrored() && u <= k && k + 1 < |nodes| && pred == nodes[u] && x == nodes[k + 1] && i < heights[u]
      requires pred.forward[i] == x ==> i < heights[k + 1]
      modifies pred`forward, pred`span, this`fwds, this`spans
      ensures Mirrored()
      ensures var tall := old(fwds)[u][i] == x;
              var xf := if tall then old(fwds)[k + 1][i] else null;
              var xs: U64 := if tall then old(spans)[k + 1][i] else 0;
              && fwds == Put(old(fwds), u, i, UnlinkedForward(tall, old(fwds)[u][i], xf))
              && spans == Put<U64>(old(spans), u, i, UnlinkedSpan(tall, old(spans)[u][i], xf, xs))
    {
      if pred.forward[i] == x {
        if x.forward[i] != null {
          pred.span := pred.span[i := WrapAdd(pred.span[i], WrapSub(x.span[i], 1))];
        } else {
          pred.span := pred.span[i := 0];
        }
        pred.forward := pred.forward[i := x.forward[i]];
      } else {
        pred.span := pred.span[i := WrapSub(pred.span[i], 1)];
        assert pred.forward == pred.forward[i := pred.forward[i]];
      }
      fwds, spans := fwds[u := pred.forward], spans[u := pred.span];
    }

    /** DeleteNode's loop over the levels. */
    method UnlinkAll(x: Node, update: seq<Node?>, ghost us: seq<nat>, ghost k: nat)
      requires Mirrored() && Linked(nodes, heights, fwds, spans) && level <= |update| == |us|
      requires Preds(heights, k, us, level) && k + 1 < |nodes| && x == nodes[k + 1]
      requires forall i :: 0 <= i < level ==> update[i] == nodes[us[i]]
      modifies nodes`forward, nodes`span, this`fwds, this`spans
      ensures Mirrored() && Unspliced(heights, k, us, level, old(fwds), old(spans), fwds, spans)
    {
      ghost var f0, s0 := fwds, spans;
      for i := 0 to level
        invariant Mirrored() && Unspliced(heights, k, us, i, f0, s0, fwds, spans)
      {
        ghost var u := us[i];
        assert IsPred(heights, k, i, u);
        PointsToVictim(nodes, heights, f0, s0, k, u, i);
        ghost var tall := heights[k + 1] > i;
        ghost var xf := if tall then f0[k + 1][i] else null;
        ghost var xs: U64 := if tall then s0[k + 1][i] else 0;
        UnspliceOneMore(heights, k, us, i, f0, s0, fwds, spans,
                        UnlinkedForward(tall, f0[u][i], xf), UnlinkedSpan(tall, s0[u][i], xf, xs));
        UnlinkAtLevel(x, update[i], i, u, k);
      }
    }

    /** Takes position k + 1 out of the ghost order of the nodes, and then out of the elements. */
    ghost method Unnumber(k: nat)
      requires Mirrored() && k + 1 < |nodes|
      modifies this`nodes, this`heights, this`fwds, this`spans
      ensures Mirrored() && (old(Owned()) ==> Owned())
      ensures nodes == RemoveAt(old(nodes), k + 1) && heights == RemoveAt<nat>(old(heights), k + 1)
      ensures fwds == RemoveAt(old(fwds), k + 1) && spans == RemoveAt<seq<U64>>(old(spans), k + 1)
    {
      DistinctRemove(nodes, k + 1);
      nodes, heights := RemoveAt(nodes, k + 1), RemoveAt<nat>(heights, k + 1);
      fwds, spans := RemoveAt(fwds, k + 1), RemoveAt<seq<U64>>(spans, k + 1);
    }

    ghost method Expel(k: nat)
      requires Mirrored() && Carries() && Heights() && k < |elems|
      requires Linked(RemoveAt(nodes, k + 1), RemoveAt<nat>(heights, k + 1),
                      RemoveAt(fwds, k + 1), RemoveAt<seq<U64>>(spans, k + 1))
      modifies this`nodes, this`heights, this`fwds, this`spans, this`elems
      ensures nodes == RemoveAt(old(nodes), k + 1) && (old(Owned()) ==> Owned())
      ensures elems == RemoveAt(old(elems), k)
      ensures Mirrored() && Carries() && Heights() && Linked(nodes, heights, fwds, spans)
    {
      Unnumber(k);
      elems := RemoveAt(elems, k);
    }

    /** The end of DeleteNode: lowers `level` to the greatest height left, or to 1, and counts the node out. */
    method Settle()
      requires Mirrored() && Carries() && Heights() && Linked(nodes, heights, fwds, spans)
      requires nodes[0] == header && length == |elems| + 1 && |nodes| < TWO63
      modifies this`level, this`length
      ensures Built()
    {
      while level > 1 && header.forward[level - 1] == null
        invariant Heights() && length == old(length)
      {
        assert LinkOk(nodes, heights, 0, level - 1, fwds[0][level - 1], spans[0][level - 1]);
        level := level - 1;
      }
      length := WrapSub(length, 1);
    }

    /** UnlinkAll leaves links that are right once position k + 1 is taken out. */
    method Unlink(x: Node, update: seq<Node?>, ghost us: seq<nat>, ghost k: nat)
      requires Mirrored() && Linked(nodes, heights, fwds, spans) && level <= |update| == |us|
      requires Preds(heights, k, us, level) && k + 1 < |nodes| && x == nodes[k + 1]
      requires forall i :: 0 <= i < level ==> update[i] == nodes[us[i]]
      modifies nodes`forward, nodes`span, this`fwds, this`spans
      ensures Mirrored()
      ensures Linked(RemoveAt(nodes, k + 1), RemoveAt<nat>(heights, k + 1),
                     RemoveAt(fwds, k + 1), RemoveAt<seq<U64>>(spans, k + 1))
    {
      UnlinkAll(x, update, us, k);
      RemoveKeepsLinked(nodes, heights, old(fwds), old(spans), k, us, level, fwds, spans);
    }

    method DeleteNode(x: Node, update: seq<Node?>, ghost us: seq<nat>, ghost k: nat)
      requires Built() && Owned() && k < |elems| && x == nodes[k + 1]
      requires |update| == |us| == MAX_LEVEL && Preds(heights, k, us, level)
      requires forall i :: 0 <= i < level ==> update[i] == nodes[us[i]]
      modifies this, nodes
      ensures Built() && Owned() && elems == RemoveAt(old(elems), k)
      ensures repr == old(repr)
    {
      Unlink(x, update, us, k);
      Expel(k);
      Settle();
    }

    /** Removes the key; true when it was present. */
    method Erase(score: F64, member: Bytes) returns (removed: bool)
      requires Valid() && !IsNaN(score)
      modifies this, repr
      ensures Valid() && elems == Erased(old(elems), Elem(score, member))
      ensures removed == Present(old(elems), Elem(score, member))
      ensures repr == old(repr)
    {
      var key := Elem(score, member);
      ErasedSorted(elems, key);
      var x, update, rank;
      ghost var us, k;
      x, update, rank, us, k := FindNode(key);
      removed := x != null;
      if removed {
        DeleteNode(x, update, us, k);
      }
    }

    /** Removes the node at position k + 1, as both pops do after locating it. */
    method PopAt(x: Node, ghost k: nat) returns (r: Elem)
      requires Valid() && k < |elems| && x == nodes[k + 1]
      modifies this, repr
      ensures Valid() && r == old(elems)[k] && elems == RemoveAt(old(elems), k)
      ensures repr == old(repr)
    {
      r := ElemOf(x);
      LowerBoundOfElement(elems, k);
      ErasedSorted(elems, r);
      var found, update, rank;
      ghost var us, j;
      found, update, rank, us, j := FindNode(r);
      DeleteNode(x, update, us, k);
    }

    method PopMin() returns (r: Option<Elem>)
      requires Valid()
      modifies this, repr
      ensures Valid()
      ensures if old(elems) == [] then r == None && elems == []
              else r == Some(old(elems)[0]) && elems == old(elems)[1..]
      ensures repr == old(repr)
    {
      LinkAt(0, 0);
      NextAtLevelZero(heights, 0);
      var first := header.forward[0];
      if first == null {
        return None;
      }
      var e := PopAt(first, 0);
      assert elems == old(elems)[1..];
      return Some(e);
    }

    /** The walk along level i to the last node of that level. */
    method WalkToEnd(x0: Node, i: nat, ghost p0: nat) returns (x: Node, ghost p: nat)
      requires Valid() && p0 < |nodes| && i < heights[p0] && x0 == nodes[p0]
      ensures p < |nodes| && i < heights[p] && x == nodes[p] && NextTall(heights, p, i) == |nodes|
    {
      x, p := x0, p0;
      LinkAt(p, i);
      while x.forward[i] != null
        invariant p < |nodes| && x == nodes[p] && i < heights[p]
        decreases |nodes| - p
      {
        LinkAt(p, i);
        x, p := x.forward[i], NextTall(heights, p, i);
      }
      LinkAt(p, i);
    }

    /** The greedy descent to the last node; the header when there is none. */
    method LastNode() returns (x: Node)
      requires Valid()
      ensures x == nodes[|elems|]
    {
      x := header;
      var i := level;
      ghost var p: nat := 0;
      while i > 0
        invariant 0 <= i <= level
        invariant p < |nodes| && x == nodes[p] && heights[p] >= i
        invariant i < level ==> NextTall(heights, p, i) == |nodes|
      {
        i := i - 1;
        x, p := WalkToEnd(x, i, p);
      }
      NextAtLevelZero(heights, p);
    }

    method PopMax() returns (r: Option<Elem>)
      requires Valid()
      modifies this, repr
      ensures Valid()
      ensures var n := |old(elems)|;
              if n == 0 then r == None && elems == [] else r == Some(old(elems)[n - 1]) && elems == old(elems)[..n - 1]
      ensures repr == old(repr)
    {
      var x := LastNode();
      ghost var n := |elems|;
      assert n > 0 ==> nodes[0] != nodes[n];
      if x == header {
        return None;
      }
      var e := PopAt(x, n - 1);
      assert elems == old(elems)[..n - 1];
      return Some(e);
    }

    method Contains(score: F64, member: Bytes) returns (found: bool)
      requires Valid() && !IsNaN(score)
      ensures found == Present(elems, Elem(score, member))
    {
      var x, update, rank;
      ghost var us, k;
      x, update, rank, us, k := FindNode(Elem(score, member));
      found := x != null;
    }

    /** The rank walk along level i, which steps onto an equal key and adds up the spans. */
    method WalkUpTo(key: Elem, x0: Node, i: nat, rank0: U64, ghost p0: nat)
      returns (x: Node, rank: U64, ghost p: nat)
      requires Valid() && !IsNaN(key.score)
      requires p0 <= UpperBound(elems, key) && i < heights[p0] && x0 == nodes[p0] && rank0 == p0
      ensures IsPred(heights, UpperBound(elems, key), i, p) && x == nodes[p] && rank == p
    {
      ghost var k := UpperBound(elems, key);
      UpperBoundSplits(elems, key);
      x, rank, p := x0, rank0, p0;
      LinkAt(p, i);
      while x.forward[i] != null && KeyLessEq(ElemOf(x.forward[i]), key)
        invariant p <= k && i < heights[p] && x == nodes[p] && rank == p
        decreases |nodes| - p
      {
        LinkAt(p, i);
        rank := WrapAdd(rank, x.span[i]);
        x, p := x.forward[i], NextTall(heights, p, i);
      }
      LinkAt(p, i);
    }

    /** A node that carries the key gives its rank away. */
    lemma RankHit(key: Elem, p: nat)
      requires Valid() && !IsNaN(key.score) && p < |nodes|
      ensures nodes[p] == header <==> p == 0
      ensures p > 0 ==> ElemOf(nodes[p]) == elems[p - 1]
      ensures p > 0 && KeyEqual(elems[p - 1], key) ==> Present(elems, key) && LowerBound(elems, key) == p - 1
    {
      PresentIff(elems, key);
      assert p > 0 ==> nodes[0] != nodes[p];
    }

    /** A search that ends at level 0 on a node that does not carry the key has missed nothing. */
    lemma RankMiss(key: Elem, p: nat)
      requires Valid() && !IsNaN(key.score) && IsPred(heights, UpperBound(elems, key), 0, p)
      requires p == 0 || !KeyEqual(elems[p - 1], key)
      ensures !Present(elems, key)
    {
      PresentIff(elems, key);
      NextAtLevelZero(heights, p);
    }

    /** The 0-based position of the key, added up from spans; SIZE_MAX when absent. */
    method Rank(score: F64, member: Bytes) returns (r: U64)
      requires Valid() && !IsNaN(score)
      ensures r == if Present(elems, Elem(score, member)) then LowerBound(elems, Elem(score, member)) else SIZE_MAX
    {
      var key := Elem(score, member);
      var rank: U64 := 0;
      var x, i := header, level;
      ghost var p: nat := 0;
      while i > 0
        invariant 0 <= i <= level
        invariant p <= UpperBound(elems, key) && x == nodes[p] && heights[p] >= i && rank == p
        invariant p == 0 || !KeyEqual(elems[p - 1], key)
        invariant i < level ==> IsPred(heights, UpperBound(elems, key), i, p)
      {
        i := i - 1;
        x, rank, p := WalkUpTo(key, x, i, rank, p);
        RankHit(key, p);
        if x != header && Eq(x.score, score) && x.member == member {
          return rank - 1;
        }
      }
      RankMiss(key, p);
      return SIZE_MAX;
    }

    /** The position counted from the largest key. */
    method RevRank(score: F64, member: Bytes) returns (r: U64)
      requires Valid() && !IsNaN(score)
      ensures var key := Elem(score, member);
              r == if Present(elems, key) then |elems| - 1 - LowerBound(elems, key) else SIZE_MAX
    {
      var rank := Rank(score, member);
      if rank == SIZE_MAX || rank >= length {
        return SIZE_MAX;
      }
      return length - 1 - rank;
    }

    /** `cur` is the node that carries element j, or null past the last. */
    ghost predicate Ahead(cur: Node?, j: nat)
      reads this, nodes
    {
      && |nodes| == |elems| + 1 && j <= |elems|
      && if j < |elems| then cur == nodes[j + 1] && ElemOf(nodes[j + 1]) == elems[j] else cur == null
    }

    /** The level-0 link of position p leads to the node that carries element p. */
    ghost predicate Chain(p: nat)
      reads this, nodes
    {
      p < |nodes| && |nodes[p].forward| > 0 && Ahead(nodes[p].forward[0], p)
    }

    /** All that the walks along level 0 need to know of the list. */
    ghost predicate Chained()
      reads this, nodes
    {
      && |nodes| == |elems| + 1 && nodes[0] == header
      && forall p {:trigger Chain(p)} :: 0 <= p < |nodes| ==> Chain(p)
    }

    lemma LevelZero()
      requires Valid()
      ensures Chained()
    {
      forall p | 0 <= p < |nodes|
        ensures Chain(p)
      {
        LinkAt(p, 0);
        NextAtLevelZero(heights, p);
      }
    }

    /** The level-0 walk of RangeByRank over an ascending window. */
    method CollectRanks(start: int, stop: int) returns (out: seq<Elem>)
      requires Chained() && 0 <= start <= stop < |elems|
      ensures out == elems[start..stop + 1]
    {
      out := [];
      assert Chain(0);
      var x, r := header.forward[0], 0;
      while x != null && r <= stop
        invariant 0 <= r <= stop + 1 && Ahead(x, r)
        invariant out == if r <= start then [] else elems[start..r]
        decreases |elems| - r
      {
        assert Chain(r + 1);
        if r >= start {
          out := out + [ElemOf(x)];
        }
        x, r := x.forward[0], r + 1;
      }
    }

    /** The elements at inclusive ranks, or none when the clamped window is empty. */
    method CollectBounds(bounds: Option<(int, int)>) returns (out: seq<Elem>)
      requires Chained() && (bounds.Some? ==> 0 <= bounds.value.0 <= bounds.value.1 < |elems|)
      ensures out == if bounds.None? then [] else elems[bounds.value.0..bounds.value.1 + 1]
    {
      if bounds.None? {
        return [];
      }
      out := CollectRanks(bounds.value.0, bounds.value.1);
    }

    method RanksAscending(start: int, stop: int) returns (out: seq<Elem>)
      requires Valid()
      ensures out == Window(elems, start, stop)
    {
      LevelZero();
      out := CollectBounds(RankBounds(length, start, stop));
      WindowByBounds(elems, start, stop);
    }

    /** Ranks counted from the top name the mirrored ascending window, emitted backwards. */
    method RanksDescending(start: int, stop: int) returns (out: seq<Elem>)
      requires Valid()
      ensures out == Window(Reverse(elems), start, stop)
    {
      LevelZero();
      var b := RankBounds(length, start, stop);
      var tmp := CollectBounds(if b.None? then None else Some((length - 1 - b.value.1, length - 1 - b.value.0)));
      ReverseWindowByBounds(elems, start, stop, tmp);
      out := Reverse(tmp);
    }

    method RangeByRank(start: int, stop: int, rev: bool) returns (out: seq<Elem>)
      requires Valid()
      ensures out == Window(if rev then Reverse(elems) else elems, start, stop)
    {
      if rev {
        out := RanksDescending(start, stop);
      } else {
        out := RanksAscending(start, stop);
      }
    }

    method CountInRange(r: ScoreRange) returns (n: nat)
      requires Valid()
      ensures n == |Within(elems, r)|
    {
      n := 0;
      LevelZero();
      assert Chain(0);
      var cur := header.forward[0];
      ghost var j: nat := 0;
      while cur != null
        invariant Ahead(cur, j)
        invariant n == |Within(elems[..j], r)|
        decreases |elems| - j
      {
        var v := cur.score;
        WithinStep(elems, j, r);
        if !BelowMin(r, v) {
          if AboveMax(r, v) {
            WithinSplit(elems, j, r);
            NoneAfterMax(elems, j, r);
            return;
          }
          n := n + 1;
        }
        assert Chain(j + 1);
        cur, j := cur.forward[0], j + 1;
      }
      assert elems[..j] == elems;
    }

    method WalkBelowScore(min: F64, x0: Node, i: nat, ghost p0: nat) returns (x: Node, ghost p: nat)
      requires Valid() && p0 < |nodes| && i < heights[p0] && x0 == nodes[p0]
      requires p0 > 0 ==> Lt(elems[p0 - 1].score, min)
      ensures p < |nodes| && i < heights[p] && x == nodes[p]
      ensures p > 0 ==> Lt(elems[p - 1].score, min)
    {
      x, p := x0, p0;
      while x.forward[i] != null && Lt(x.forward[i].score, min)
        invariant p < |nodes| && x == nodes[p] && i < heights[p]
        invariant p > 0 ==> Lt(elems[p - 1].score, min)
        decreases |nodes| - p
      {
        LinkAt(p, i);
        ghost var q := NextTall(heights, p, i);
        assert ElemOf(nodes[q]) == elems[q - 1];
        x, p := x.forward[i], q;
      }
    }

    /** The multi-level seek of RangeByScore stops at a position all of whose elements lie below `min`. */
    method SeekScore(min: F64) returns (x: Node, ghost p: nat)
      requires Valid()
      ensures p < |nodes| && x == nodes[p]
      ensures forall j :: 0 <= j < p ==> Lt(elems[j].score, min)
    {
      x, p := header, 0;
      var i := level;
      while i > 0
        invariant 0 <= i <= level
        invariant p < |nodes| && x == nodes[p] && heights[p] >= i
        invariant p > 0 ==> Lt(elems[p - 1].score, min)
      {
        i := i - 1;
        x, p := WalkBelowScore(min, x, i, p);
      }
      if p > 0 {
        AllBelow(elems, p, min);
      }
    }

    /** The skip over ties at an exclusive lower bound. */
    method SkipTies(cur0: Node?, min: F64, ghost j0: nat) returns (cur: Node?, ghost j: nat)
      requires Chained() && Ahead(cur0, j0) && forall i :: 0 <= i < j0 ==> Le(elems[i].score, min)
      ensures Ahead(cur, j) && forall i :: 0 <= i < j ==> Le(elems[i].score, min)
    {
      cur, j := cur0, j0;
      while cur != null && Eq(cur.score, min)
        invariant Ahead(cur, j) && forall i :: 0 <= i < j ==> Le(elems[i].score, min)
        decreases |elems| - j
      {
        assert Chain(j + 1);
        cur, j := cur.forward[0], j + 1;
      }
    }

    /** The ascending collection of RangeByScore from element j0. */
    method CollectScores(cur0: Node?, r: ScoreRange, offset: int, count: int, ghost j0: nat) returns (out: seq<Elem>)
      requires Chained() && Ahead(cur0, j0)
      ensures out == Scan(elems, j0, r, offset, count, 0, [])
    {
      out := [];
      var cur, skipped := cur0, 0;
      ghost var j := j0;
      while cur != null
        invariant Ahead(cur, j) && skipped >= 0
        invariant Scan(elems, j0, r, offset, count, 0, []) == Scan(elems, j, r, offset, count, skipped, out)
        decreases |elems| - j
      {
        var v := cur.score;
        if !BelowMin(r, v) {
          if AboveMax(r, v) {
            return;
          }
          if offset > 0 && skipped < offset {
            skipped := skipped + 1;
          } else {
            out := out + [ElemOf(cur)];
            if count > 0 && |out| >= count {
              return;
            }
          }
        }
        assert Chain(j + 1);
        cur, j := cur.forward[0], j + 1;
      }
    }

    /** The full ascending pass the reverse query collects before it takes its window. */
    method CollectAll(r: ScoreRange) returns (asc: seq<Elem>)
      requires Chained()
      ensures asc == Within(elems, r)
    {
      asc := [];
      assert Chain(0);
      var cur := header.forward[0];
      ghost var j: nat := 0;
      while cur != null
        invariant Ahead(cur, j) && asc == Within(elems[..j], r)
        decreases |elems| - j
      {
        WithinStep(elems, j, r);
        if InRange(r, cur.score) {
          asc := asc + [ElemOf(cur)];
        }
        assert Chain(j + 1);
        cur, j := cur.forward[0], j + 1;
      }
      assert elems[..j] == elems;
    }

    /** Ascending: seek, skip the ties of an exclusive bound, collect. */
    method RangeAscending(r: ScoreRange, offset: int, count: int) returns (out: seq<Elem>)
      requires Valid() && count != 0
      ensures out == Limit(Within(elems, r), offset, count)
    {
      var x;
      ghost var p;
      x, p := SeekScore(r.min);
      LevelZero();
      assert Chain(p);
      var cur := x.forward[0];
      if cur != null && r.minExclusive {
        cur, p := SkipTies(cur, r.min, p);
      }
      WithinNone(elems[..p], r);
      ScanIsLimit(elems, p, r, offset, count, []);
      out := CollectScores(cur, r, offset, count, p);
    }

    /** Descending: collect every match, then emit the window counted from the top; none is defined before the top. */
    method RangeDescending(r: ScoreRange, offset: int, count: int) returns (out: Option<seq<Elem>>)
      requires Valid() && count != 0
      ensures out == if offset < 0 then None else Some(Limit(Reverse(Within(elems, r)), offset, count))
    {
      LevelZero();
      var asc := CollectAll(r);
      out := DescendingWindow(asc, offset, count);
    }

    method RangeByScore(r: ScoreRange, rev: bool, offset: int, count: int) returns (out: Option<seq<Elem>>)
      requires Valid()
      ensures out == if rev && offset < 0 && count != 0 then None
                     else Some(Limit(if rev then Reverse(Within(elems, r)) else Within(elems, r), offset, count))
    {
      if count == 0 {
        out := Some([]);
      } else if rev {
        out := RangeDescending(r, offset, count);
      } else {
        var up := RangeAscending(r, offset, count);
        out := Some(up);
      }
    }

    /** The nodes met by following level-i pointers from x, at most `fuel` of them. */
    ghost function Walk(x: Node, i: nat, fuel: nat): seq<Node>
      reads this, nodes, x
    {
      if fuel == 0 || i >= |x.forward| || x.forward[i] == null || x.forward[i] !in nodes then []
      else [x.forward[i]] + Walk(x.forward[i], i, fuel - 1)
    }

    /** Level i visits exactly the nodes taller than i, in level-0 order. */
    lemma {:induction false} WalkVisitsTall(p: nat, i: nat, fuel: nat)
      requires Valid() && p < |nodes| && i < heights[p] && fuel >= |nodes| - p
      ensures Walk(nodes[p], i, fuel) == NodesAt(nodes, TallFrom(heights, p, i))
      decreases |nodes| - p
    {
      LinkAt(p, i);
      var q := NextTall(heights, p, i);
      if q < |nodes| {
        WalkVisitsTall(q, i, fuel - 1);
      }
    }

    /** The positions a walk along level i visits are exactly those of the nodes taller than i, in level-0 order. */
    lemma LevelHoldsTall(i: nat) returns (ps: seq<nat>)
      requires Valid() && i < MAX_LEVEL
      ensures Walk(header, i, |nodes|) == NodesAt(nodes, ps)
      ensures forall r :: r in ps <==> 0 < r < |nodes| && heights[r] > i
      ensures forall a, b :: 0 <= a < b < |ps| ==> ps[a] < ps[b]
    {
      ps := TallFrom(heights, 0, i);
      WalkVisitsTall(0, i, |nodes|);
      TallFromElements(heights, 0, i);
    }

    /** `level` is the greatest height of a node, or 1 when there is none. */
    lemma LevelIsGreatestHeight()
      requires Valid()
      ensures forall p :: 0 < p < |nodes| ==> |nodes[p].forward| <= level
      ensures level == 1 || exists p :: 0 < p < |nodes| && |nodes[p].forward| == level
    {
      if level > 1 {
        LinkAt(0, level - 1);
        var p := NextTall(heights, 0, level - 1);
        assert |nodes[p].forward| == level;
      }
    }
  }
}
