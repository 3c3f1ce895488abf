/**
The link structure of a skip list, as values.  Position 0 is the header and position p > 0 the p-th node of
level 0; `hs[p]` is the height of the node at p.  The level-i link of p must lead to the next position taller
than i, and its span must be the distance travelled.  The span of a null link carries no promise.
*/
module SkipLinks {
  import opened Common
  import opened Float

  class Node {
    var score: F64
    var member: Bytes
    var forward: seq<Node?>
    var span: seq<U64>

    constructor (score: F64, member: Bytes, level: nat)
      ensures this.score == score && this.member == member
      ensures forward == seq(level, _ => null)
      ensures span == seq(level, _ => 0)
    {
      this.score, this.member := score, member;
      forward := seq(level, _ => null);
      span := seq(level, _ => 0);
    }
  }

  /** The first position after p whose height exceeds i, or |hs| when there is none. */
  ghost function NextTall(hs: seq<nat>, p: nat, i: nat): (q: nat)
    requires p < |hs|
    ensures p < q <= |hs|
    ensures forall r :: p < r < q ==> hs[r] <= i
    ensures q < |hs| ==> hs[q] > i
    decreases |hs| - p
  {
    if p + 1 == |hs| || hs[p + 1] > i then p + 1 else NextTall(hs, p + 1, i)
  }

  /** That position is the only one with these three properties. */
  lemma NextTallIs(hs: seq<nat>, p: nat, i: nat, q: nat)
    requires p < q <= |hs|
    requires forall r :: p < r < q ==> hs[r] <= i
    requires q < |hs| ==> hs[q] > i
    ensures NextTall(hs, p, i) == q
  {
  }

  /** One level-i slot of position p, holding forward pointer f and span s. */
  ghost predicate LinkOk(ns: seq<Node>, hs: seq<nat>, p: nat, i: nat, f: Node?, s: int)
    requires p < |hs| == |ns|
  {
    var q := NextTall(hs, p, i);
    if q < |hs| then f == ns[q] && s == q - p else f == null
  }

  /** Every node has as many forward pointers and spans as its height. */
  ghost predicate Sized(hs: seq<nat>, fs: seq<seq<Node?>>, ss: seq<seq<U64>>) {
    && |hs| == |fs| == |ss|
    && (forall p :: 0 <= p < |hs| ==> |fs[p]| == hs[p])
    && (forall p :: 0 <= p < |hs| ==> |ss[p]| == hs[p])
  }

  ghost predicate Shaped(ns: seq<Node>, hs: seq<nat>, fs: seq<seq<Node?>>, ss: seq<seq<U64>>) {
    |ns| == |hs| && Sized(hs, fs, ss)
  }

  ghost predicate Linked(ns: seq<Node>, hs: seq<nat>, fs: seq<seq<Node?>>, ss: seq<seq<U64>>) {
    && Shaped(ns, hs, fs, ss)
    && forall p, i {:trigger LinkOk(ns, hs, p, i, fs[p][i], ss[p][i])} ::
         0 <= p < |hs| && 0 <= i < hs[p] ==> LinkOk(ns, hs, p, i, fs[p][i], ss[p][i])
  }

  /** u is the last position at or before k that is taller than i: the predecessor recorded in update[i]. */
  ghost predicate IsPred(hs: seq<nat>, k: nat, i: nat, u: nat) {
    u <= k < |hs| && hs[u] > i && NextTall(hs, u, i) > k
  }

  function InsertAt<T>(s: seq<T>, k: nat, x: T): (r: seq<T>)
    requires k <= |s|
    ensures |r| == |s| + 1
    ensures forall j :: 0 <= j < k ==> r[j] == s[j]
    ensures r[k] == x
    ensures forall j :: k < j <= |s| ==> r[j] == s[j - 1]
  {
    seq(|s| + 1, j requires 0 <= j <= |s| => if j < k then s[j] else if j == k then x else s[j - 1])
  }

  function RemoveAt<T>(s: seq<T>, k: nat): (r: seq<T>)
    requires k < |s|
    ensures |r| == |s| - 1
    ensures forall j :: 0 <= j < k ==> r[j] == s[j]
    ensures forall j :: k <= j < |r| ==> r[j] == s[j + 1]
  {
    seq(|s| - 1, j requires 0 <= j < |s| - 1 => if j < k then s[j] else s[j + 1])
  }

  function Put<T>(s: seq<seq<T>>, u: nat, i: nat, x: T): seq<seq<T>>
    requires u < |s| && i < |s[u]|
  {
    s[u := s[u][i := x]]
  }

  ghost predicate Distinct(ns: seq<Node>) {
    forall p, q :: 0 <= p < q < |ns| ==> ns[p] != ns[q]
  }

  lemma DistinctInsert(ns: seq<Node>, k: nat, node: Node)
    requires Distinct(ns) && k <= |ns| && node !in ns
    ensures Distinct(InsertAt(ns, k, node))
  {
  }

  lemma DistinctRemove(ns: seq<Node>, k: nat)
    requires Distinct(ns) && k < |ns|
    ensures Distinct(RemoveAt(ns, k))
  {
  }

  /** Where the next taller position goes when a node of height h is put after position k. */
  lemma NextTallInsert(hs: seq<nat>, k: nat, h: nat, p: nat, i: nat)
    requires k < |hs| && p < |hs|
    ensures var q := NextTall(hs, p, i);
            NextTall(InsertAt<nat>(hs, k + 1, h), if p <= k then p else p + 1, i)
            == if q <= k then q else if p <= k && h > i then k + 1 else q + 1
  {
    var q := NextTall(hs, p, i);
    var hs' := InsertAt<nat>(hs, k + 1, h);
    NextTallIs(hs', if p <= k then p else p + 1, i,
               if q <= k then q else if p <= k && h > i then k + 1 else q + 1);
  }

  lemma NextTallOfInserted(hs: seq<nat>, k: nat, h: nat, i: nat)
    requires k < |hs|
    ensures NextTall(InsertAt<nat>(hs, k + 1, h), k + 1, i) == NextTall(hs, k, i) + 1
  {
    NextTallIs(InsertAt<nat>(hs, k + 1, h), k + 1, i, NextTall(hs, k, i) + 1);
  }

  /** Where it goes when position x is removed. */
  lemma NextTallRemove(hs: seq<nat>, x: nat, p: nat, i: nat)
    requires 0 < x < |hs| && p < |hs| && p != x
    ensures var q := NextTall(hs, p, i);
            NextTall(RemoveAt<nat>(hs, x), if p < x then p else p - 1, i)
            == if q < x then q else if q == x then NextTall(hs, x, i) - 1 else q - 1
  {
    var q := NextTall(hs, p, i);
    var hs' := RemoveAt<nat>(hs, x);
    NextTallIs(hs', if p < x then p else p - 1, i,
               if q < x then q else if q == x then NextTall(hs, x, i) - 1 else q - 1);
  }

  /** Positions taller than i other than the predecessor lie before it, with links that end before it, or after k. */
  lemma AroundPred(hs: seq<nat>, k: nat, i: nat, u: nat, p: nat)
    requires k < |hs| && IsPred(hs, k, i, u) && p < |hs| && hs[p] > i
    ensures p < u ==> NextTall(hs, p, i) <= u
    ensures p > u ==> p > k
  {
  }

  /** The slots Insert leaves behind at level i of the node at old position p. */
  ghost predicate InsertedSlot(u: nat, k: nat, h: nat, node: Node, p: nat, i: nat,
                               f: Node?, s: U64, f': Node?, s': U64)
    requires u <= k < TWO63
  {
    if p != u then f' == f && s' == s
    else if i < h then f' == node && s' == k - u + 1
    else f' == f && s' == WrapAdd(s, 1)
  }

  /** A slot rewritten by Insert is right in the list with the new node at position k + 1. */
  lemma InsertKeepsLink(ns: seq<Node>, hs: seq<nat>, k: nat, u: nat, h: nat, node: Node, p: nat, i: nat,
                        f: Node?, s: U64, f': Node?, s': U64)
    requires |ns| == |hs| < TWO63 && k < |hs| && p < |hs| && hs[p] > i
    requires IsPred(hs, k, i, u)
    requires LinkOk(ns, hs, p, i, f, s)
    requires InsertedSlot(u, k, h, node, p, i, f, s, f', s')
    ensures LinkOk(InsertAt(ns, k + 1, node), InsertAt<nat>(hs, k + 1, h), if p <= k then p else p + 1, i, f', s')
  {
    NextTallInsert(hs, k, h, p, i);
    AroundPred(hs, k, i, u, p);
  }

  /** The new node's own slot takes over what is left of the predecessor's link. */
  lemma InsertedNodeLink(ns: seq<Node>, hs: seq<nat>, k: nat, u: nat, h: nat, node: Node, i: nat, f: Node?, s: U64)
    requires |ns| == |hs| < TWO63 && k < |hs|
    requires IsPred(hs, k, i, u)
    requires LinkOk(ns, hs, u, i, f, s)
    ensures LinkOk(InsertAt(ns, k + 1, node), InsertAt<nat>(hs, k + 1, h), k + 1, i, f, WrapSub(s, k - u))
  {
    NextTallOfInserted(hs, k, h, i);
    NextTallIs(hs, k, i, NextTall(hs, u, i));
  }

  /** The slots DeleteNode leaves behind at level i of the node at position p, when xf, xs are those of the victim. */
  ghost predicate RemovedSlot(u: nat, tall: bool, p: nat, f: Node?, s: U64, xf: Node?, xs: U64, f': Node?, s': U64) {
    if p != u then f' == f && s' == s
    else if tall then f' == xf && s' == if xf != null then WrapAdd(s, WrapSub(xs, 1)) else 0
    else f' == f && s' == WrapSub(s, 1)
  }

  /** The link that led to position x now leads where the link of x led. */
  lemma RemoveRedirects(ns: seq<Node>, hs: seq<nat>, x: nat, u: nat, i: nat, s: U64, xf: Node?, xs: U64)
    requires |ns| == |hs| < TWO63 && u < x < |hs|
    requires NextTall(hs, u, i) == x && s == x - u
    requires LinkOk(ns, hs, x, i, xf, xs)
    ensures LinkOk(RemoveAt(ns, x), RemoveAt<nat>(hs, x), u, i, xf, WrapAdd(s, WrapSub(xs, 1)))
  {
    NextTallRemove(hs, x, u, i);
    var q := NextTall(hs, x, i);
    if q < |hs| {
      assert RemoveAt(ns, x)[q - 1] == ns[q];
      assert WrapSub(xs, 1) == q - x - 1;
    }
  }

  /** A link that passes over position x gets one shorter; one on either side of it keeps its length. */
  lemma RemoveShifts(ns: seq<Node>, hs: seq<nat>, x: nat, p: nat, i: nat, f: Node?, s: int)
    requires |ns| == |hs| && 0 < x < |hs| && p < |hs| && p != x
    requires NextTall(hs, p, i) != x
    requires LinkOk(ns, hs, p, i, f, s)
    ensures LinkOk(RemoveAt(ns, x), RemoveAt<nat>(hs, x), if p < x then p else p - 1, i, f,
                   if p < x < NextTall(hs, p, i) then s - 1 else s)
  {
    NextTallRemove(hs, x, p, i);
    var q := NextTall(hs, p, i);
    if q < x {
      assert RemoveAt(ns, x)[q] == ns[q];
    } else if q < |hs| {
      assert RemoveAt(ns, x)[q - 1] == ns[q];
    }
  }

  /** The predecessor's link reaches the victim exactly at the levels the victim has. */
  lemma PredReachesVictim(hs: seq<nat>, k: nat, u: nat, i: nat)
    requires k + 1 < |hs| && IsPred(hs, k, i, u)
    ensures NextTall(hs, u, i) == k + 1 <==> hs[k + 1] > i
  {
  }

  /** The predecessor's slot, at a level below the victim's height and at one the victim does not have. */
  lemma RemoveAtTallPred(ns: seq<Node>, hs: seq<nat>, k: nat, u: nat, i: nat, f: Node?, s: U64,
                         xf: Node?, xs: U64, s': U64, ns': seq<Node>, hs': seq<nat>)
    requires |ns| == |hs| < TWO63 && k + 1 < |hs| && hs[k + 1] > i && IsPred(hs, k, i, u)
    requires ns' == RemoveAt(ns, k + 1) && hs' == RemoveAt<nat>(hs, k + 1)
    requires LinkOk(ns, hs, u, i, f, s) && LinkOk(ns, hs, k + 1, i, xf, xs)
    requires xf != null ==> s' == WrapAdd(s, WrapSub(xs, 1))
    ensures LinkOk(ns', hs', u, i, xf, s')
  {
    PredReachesVictim(hs, k, u, i);
    RemoveRedirects(ns, hs, k + 1, u, i, s, xf, xs);
  }

  lemma RemoveAtShortPred(ns: seq<Node>, hs: seq<nat>, k: nat, u: nat, i: nat, f: Node?, s: U64,
                          s': U64, ns': seq<Node>, hs': seq<nat>)
    requires |ns| == |hs| < TWO63 && k + 1 < |hs| && hs[k + 1] <= i && IsPred(hs, k, i, u)
    requires ns' == RemoveAt(ns, k + 1) && hs' == RemoveAt<nat>(hs, k + 1)
    requires LinkOk(ns, hs, u, i, f, s) && s' == WrapSub(s, 1)
    ensures LinkOk(ns', hs', u, i, f, s')
  {
    PredReachesVictim(hs, k, u, i);
    RemoveShifts(ns, hs, k + 1, u, i, f, s);
  }

  /** Any other slot. */
  lemma RemoveElsewhere(ns: seq<Node>, hs: seq<nat>, k: nat, u: nat, p: nat, i: nat, f: Node?, s: U64,
                        p': nat, ns': seq<Node>, hs': seq<nat>)
    requires |ns| == |hs| < TWO63 && k + 1 < |hs| && p < |hs| && p != k + 1 && hs[p] > i && p != u
    requires ns' == RemoveAt(ns, k + 1) && hs' == RemoveAt<nat>(hs, k + 1) && p' == if p <= k then p else p - 1
    requires IsPred(hs, k, i, u) && LinkOk(ns, hs, p, i, f, s)
    ensures LinkOk(ns', hs', p', i, f, s)
  {
    AroundPred(hs, k, i, u, p);
    RemoveShifts(ns, hs, k + 1, p, i, f, s);
  }

  /** A slot rewritten by DeleteNode is right in the list without position k + 1. */
  lemma RemoveKeepsLink(ns: seq<Node>, hs: seq<nat>, k: nat, u: nat, p: nat, i: nat, f: Node?, s: U64,
                        xf: Node?, xs: U64, f': Node?, s': U64, p': nat, ns': seq<Node>, hs': seq<nat>)
    requires |ns| == |hs| < TWO63 && k + 1 < |hs| && p < |hs| && p != k + 1 && hs[p] > i
    requires ns' == RemoveAt(ns, k + 1) && hs' == RemoveAt<nat>(hs, k + 1) && p' == if p <= k then p else p - 1
    requires IsPred(hs, k, i, u)
    requires LinkOk(ns, hs, p, i, f, s)
    requires hs[k + 1] > i ==> LinkOk(ns, hs, k + 1, i, xf, xs)
    requires RemovedSlot(u, hs[k + 1] > i, p, f, s, xf, xs, f', s')
    ensures LinkOk(ns', hs', p', i, f', s')
  {
    if p != u {
      RemoveElsewhere(ns, hs, k, u, p, i, f, s, p', ns', hs');
    } else if hs[k + 1] > i {
      RemoveAtTallPred(ns, hs, k, u, i, f, s, xf, xs, s', ns', hs');
    } else {
      RemoveAtShortPred(ns, hs, k, u, i, f, s, s', ns', hs');
    }
  }

  /** Every node of `ns` above the header is at most `level` tall, and us[i] is the predecessor of k at level i. */
  ghost predicate Preds(hs: seq<nat>, k: nat, us: seq<nat>, level: nat) {
    && k < |hs| < TWO63 && level <= |us|
    && (forall p :: 0 < p < |hs| ==> hs[p] <= level)
    && (forall i :: 0 <= i < level ==> IsPred(hs, k, i, us[i]))
  }

  lemma NextAtLevelZero(hs: seq<nat>, p: nat)
    requires p < |hs| && forall r :: 0 < r < |hs| ==> hs[r] > 0
    ensures NextTall(hs, p, 0) == p + 1
  {
  }

  /** At level 0, where every node is linked, the predecessor is position k itself. */
  lemma PredAtLevelZero(hs: seq<nat>, k: nat, us: seq<nat>, level: nat)
    requires Preds(hs, k, us, level) && level > 0
    requires forall p :: 0 < p < |hs| ==> hs[p] > 0
    ensures us[0] == k
  {
    assert IsPred(hs, k, 0, us[0]);
    assert k > 0 ==> hs[k] > 0;
  }

  /** Raising `level` to h, with the header as predecessor at the new levels. */
  lemma OpenPreds(hs: seq<nat>, k: nat, us: seq<nat>, us': seq<nat>, level: nat, h: nat)
    requires Preds(hs, k, us, level) && level < h <= |us'| && h <= hs[0]
    requires forall i :: 0 <= i < level ==> us'[i] == us[i]
    requires forall i :: level <= i < h ==> us'[i] == 0
    ensures Preds(hs, k, us', h)
  {
  }

  /** Spans may change freely at header levels above every node, where the link is null. */
  lemma OpenKeepsLinked(ns: seq<Node>, hs: seq<nat>, fs: seq<seq<Node?>>,
                        ss: seq<seq<U64>>, ss': seq<seq<U64>>, level: nat)
    requires Linked(ns, hs, fs, ss) && Shaped(ns, hs, fs, ss')
    requires forall p :: 0 < p < |hs| ==> hs[p] <= level
    requires forall p, i :: 0 <= p < |hs| && 0 <= i < hs[p] && !(p == 0 && level <= i) ==> ss'[p][i] == ss[p][i]
    ensures Linked(ns, hs, fs, ss')
  {
    forall p, i | 0 <= p < |hs| && 0 <= i < hs[p]
      ensures LinkOk(ns, hs, p, i, fs[p][i], ss'[p][i])
    {
      assert LinkOk(ns, hs, p, i, fs[p][i], ss[p][i]);
    }
  }

  /** What Insert must have written at level i of the node at position p, and in the slots of the new node. */
  ghost predicate InsertWrote(hs: seq<nat>, k: nat, us: seq<nat>, level: nat, h: nat, node: Node,
                              fs: seq<seq<Node?>>, ss: seq<seq<U64>>, fs': seq<seq<Node?>>, ss': seq<seq<U64>>)
    requires Preds(hs, k, us, level) && Sized(hs, fs, ss) && Sized(hs, fs', ss')
  {
    && (forall p, i {:trigger InsertedSlot(us[i], k, h, node, p, i, fs[p][i], ss[p][i], fs'[p][i], ss'[p][i])} ::
          0 <= p < |hs| && 0 <= i < hs[p] && i < level ==>
          InsertedSlot(us[i], k, h, node, p, i, fs[p][i], ss[p][i], fs'[p][i], ss'[p][i]))
    && (forall p, i :: 0 <= p < |hs| && level <= i < hs[p] ==> fs'[p][i] == fs[p][i])
  }

  /** The slots of the old nodes once the splicing loop has done levels below n. */
  ghost predicate Spliced(hs: seq<nat>, k: nat, us: seq<nat>, h: nat, node: Node, n: nat,
                          fs: seq<seq<Node?>>, ss: seq<seq<U64>>, fs': seq<seq<Node?>>, ss': seq<seq<U64>>)
    requires Sized(hs, fs, ss) && Sized(hs, fs', ss') && n <= |us| && k < TWO63
    requires forall i :: 0 <= i < n ==> us[i] <= k
  {
    && (forall p, i {:trigger InsertedSlot(us[i], k, h, node, p, i, fs[p][i], ss[p][i], fs'[p][i], ss'[p][i])} ::
          0 <= p < |hs| && 0 <= i < hs[p] && i < n ==>
          InsertedSlot(us[i], k, h, node, p, i, fs[p][i], ss[p][i], fs'[p][i], ss'[p][i]))
    && (forall p, i :: 0 <= p < |hs| && n <= i < hs[p] ==> fs'[p][i] == fs[p][i] && ss'[p][i] == ss[p][i])
  }

  lemma SpliceOneMore(hs: seq<nat>, k: nat, us: seq<nat>, h: nat, node: Node, n: nat,
                      fs: seq<seq<Node?>>, ss: seq<seq<U64>>, fs': seq<seq<Node?>>, ss': seq<seq<U64>>)
    requires Sized(hs, fs, ss) && Sized(hs, fs', ss') && n < |us| && n < h && k < TWO63
    requires forall i :: 0 <= i <= n ==> us[i] <= k
    requires us[n] < |hs| && n < hs[us[n]]
    requires Spliced(hs, k, us, h, node, n, fs, ss, fs', ss')
    ensures Spliced(hs, k, us, h, node, n + 1, fs, ss, Put(fs', us[n], n, node), Put<U64>(ss', us[n], n, k - us[n] + 1))
  {
  }

  /** The spans of the recorded predecessors at levels h to n - 1 grew by one, all others stayed. */
  ghost predicate Bumped(hs: seq<nat>, us: seq<nat>, h: nat, n: nat, ss: seq<seq<U64>>, ss': seq<seq<U64>>)
    requires |hs| == |ss| == |ss'| && n <= |us|
    requires forall p :: 0 <= p < |hs| ==> |ss[p]| == hs[p]
    requires forall p :: 0 <= p < |hs| ==> |ss'[p]| == hs[p]
  {
    forall p, i :: 0 <= p < |hs| && 0 <= i < hs[p] ==>
      ss'[p][i] == if h <= i < n && p == us[i] then WrapAdd(ss[p][i], 1) else ss[p][i]
  }

  lemma BumpOneMore(hs: seq<nat>, us: seq<nat>, h: nat, n: nat, ss: seq<seq<U64>>, ss': seq<seq<U64>>)
    requires |hs| == |ss| == |ss'| && h <= n < |us| && us[n] < |hs| && n < hs[us[n]]
    requires forall p :: 0 <= p < |hs| ==> |ss[p]| == hs[p]
    requires forall p :: 0 <= p < |hs| ==> |ss'[p]| == hs[p]
    requires Bumped(hs, us, h, n, ss, ss')
    ensures Bumped(hs, us, h, n + 1, ss, Put<U64>(ss', us[n], n, WrapAdd(ss'[us[n]][n], 1)))
  {
  }

  /** The splicing loop followed by the loop over the levels above the new node. */
  lemma SplicedThenBumped(hs: seq<nat>, k: nat, us: seq<nat>, level: nat, h: nat, node: Node,
                          fs: seq<seq<Node?>>, ss: seq<seq<U64>>,
                          fs': seq<seq<Node?>>, ss1: seq<seq<U64>>, ss': seq<seq<U64>>)
    requires Sized(hs, fs, ss) && Sized(hs, fs', ss1) && Sized(hs, fs', ss') && h <= level
    requires Preds(hs, k, us, level)
    requires Spliced(hs, k, us, h, node, h, fs, ss, fs', ss1)
    requires Bumped(hs, us, h, level, ss1, ss')
    ensures InsertWrote(hs, k, us, level, h, node, fs, ss, fs', ss')
  {
  }

  /** Levels above every node hold only the header's null link, before and after an insertion. */
  lemma InsertKeepsHighLink(ns: seq<Node>, hs: seq<nat>, k: nat, h: nat, node: Node, i: nat, f: Node?, s: int, s': int)
    requires |ns| == |hs| && k < |hs| && h <= i
    requires forall p :: 0 < p < |hs| ==> hs[p] <= i
    requires LinkOk(ns, hs, 0, i, f, s)
    ensures LinkOk(InsertAt(ns, k + 1, node), InsertAt<nat>(hs, k + 1, h), 0, i, f, s')
  {
    NextTallInsert(hs, k, h, 0, i);
  }

  lemma InsertedLink(ns: seq<Node>, hs: seq<nat>, fs: seq<seq<Node?>>, ss: seq<seq<U64>>,
                     k: nat, us: seq<nat>, level: nat, h: nat, node: Node,
                     fs': seq<seq<Node?>>, ss': seq<seq<U64>>, p: nat, i: nat)
    requires Linked(ns, hs, fs, ss) && Preds(hs, k, us, level) && h <= level
    requires Shaped(ns, hs, fs', ss') && InsertWrote(hs, k, us, level, h, node, fs, ss, fs', ss')
    requires p < |hs| && i < hs[p]
    ensures LinkOk(InsertAt(ns, k + 1, node), InsertAt<nat>(hs, k + 1, h),
                   if p <= k then p else p + 1, i, fs'[p][i], ss'[p][i])
  {
    assert LinkOk(ns, hs, p, i, fs[p][i], ss[p][i]);
    if i < level {
      InsertKeepsLink(ns, hs, k, us[i], h, node, p, i, fs[p][i], ss[p][i], fs'[p][i], ss'[p][i]);
    } else {
      assert p == 0;
      InsertKeepsHighLink(ns, hs, k, h, node, i, fs[0][i], ss[0][i], ss'[0][i]);
    }
  }

  lemma InsertedNodeLinks(ns: seq<Node>, hs: seq<nat>, fs: seq<seq<Node?>>, ss: seq<seq<U64>>,
                          k: nat, us: seq<nat>, level: nat, h: nat, node: Node, i: nat)
    requires Linked(ns, hs, fs, ss) && Preds(hs, k, us, level) && i < h <= level
    ensures LinkOk(InsertAt(ns, k + 1, node), InsertAt<nat>(hs, k + 1, h), k + 1, i,
                   fs[us[i]][i], WrapSub(ss[us[i]][i], k - us[i]))
  {
    assert IsPred(hs, k, i, us[i]);
    assert LinkOk(ns, hs, us[i], i, fs[us[i]][i], ss[us[i]][i]);
    InsertedNodeLink(ns, hs, k, us[i], h, node, i, fs[us[i]][i], ss[us[i]][i]);
  }

  lemma InsertedShape(ns: seq<Node>, hs: seq<nat>, k: nat, h: nat, node: Node,
                      fs: seq<seq<Node?>>, ss: seq<seq<U64>>, nf: seq<Node?>, nsp: seq<U64>)
    requires Shaped(ns, hs, fs, ss) && k < |hs| && |nf| == |nsp| == h
    ensures Shaped(InsertAt(ns, k + 1, node), InsertAt<nat>(hs, k + 1, h),
                   InsertAt(fs, k + 1, nf), InsertAt<seq<U64>>(ss, k + 1, nsp))
  {
  }

  /** Splicing in a node of height h after position k keeps every level linked and every span exact. */
  lemma InsertKeepsLinked(ns: seq<Node>, hs: seq<nat>, fs: seq<seq<Node?>>, ss: seq<seq<U64>>,
                          k: nat, us: seq<nat>, level: nat, h: nat, node: Node,
                          fs': seq<seq<Node?>>, ss': seq<seq<U64>>, nf: seq<Node?>, nsp: seq<U64>)
    requires Linked(ns, hs, fs, ss) && Preds(hs, k, us, level) && h <= level
    requires Shaped(ns, hs, fs', ss') && InsertWrote(hs, k, us, level, h, node, fs, ss, fs', ss')
    requires |nf| == |nsp| == h
    requires forall i :: 0 <= i < h ==> nf[i] == fs[us[i]][i] && nsp[i] == WrapSub(ss[us[i]][i], k - us[i])
    ensures Linked(InsertAt(ns, k + 1, node), InsertAt<nat>(hs, k + 1, h),
                   InsertAt(fs', k + 1, nf), InsertAt<seq<U64>>(ss', k + 1, nsp))
  {
    var ns2, hs2 := InsertAt(ns, k + 1, node), InsertAt<nat>(hs, k + 1, h);
    var fs2, ss2 := InsertAt(fs', k + 1, nf), InsertAt<seq<U64>>(ss', k + 1, nsp);
    InsertedShape(ns, hs, k, h, node, fs', ss', nf, nsp);
    forall i | 0 <= i < h
      ensures LinkOk(ns2, hs2, k + 1, i, nf[i], nsp[i])
    {
      InsertedNodeLinks(ns, hs, fs, ss, k, us, level, h, node, i);
    }
    forall p, i | 0 <= p < |hs| && 0 <= i < hs[p]
      ensures LinkOk(ns2, hs2, if p <= k then p else p + 1, i, fs'[p][i], ss'[p][i])
    {
      InsertedLink(ns, hs, fs, ss, k, us, level, h, node, fs', ss', p, i);
    }
    InsertedAssemble(ns2, hs, k, h, fs', ss', nf, nsp);
  }

  lemma InsertedAssemble(ns2: seq<Node>, hs: seq<nat>, k: nat, h: nat,
                         fs': seq<seq<Node?>>, ss': seq<seq<U64>>, nf: seq<Node?>, nsp: seq<U64>)
    requires k < |hs| == |fs'| == |ss'| && |ns2| == |hs| + 1 && |nf| == |nsp| == h
    requires Shaped(ns2, InsertAt<nat>(hs, k + 1, h), InsertAt(fs', k + 1, nf), InsertAt<seq<U64>>(ss', k + 1, nsp))
    requires forall p :: 0 <= p < |hs| ==> |fs'[p]| == |ss'[p]| == hs[p]
    requires forall i :: 0 <= i < h ==> LinkOk(ns2, InsertAt<nat>(hs, k + 1, h), k + 1, i, nf[i], nsp[i])
    requires forall p, i :: 0 <= p < |hs| && 0 <= i < hs[p] ==>
               LinkOk(ns2, InsertAt<nat>(hs, k + 1, h), if p <= k then p else p + 1, i, fs'[p][i], ss'[p][i])
    ensures Linked(ns2, InsertAt<nat>(hs, k + 1, h), InsertAt(fs', k + 1, nf), InsertAt<seq<U64>>(ss', k + 1, nsp))
  {
    var hs2, fs2, ss2 := InsertAt<nat>(hs, k + 1, h), InsertAt(fs', k + 1, nf), InsertAt<seq<U64>>(ss', k + 1, nsp);
    forall p, i | 0 <= p < |hs2| && 0 <= i < hs2[p]
      ensures LinkOk(ns2, hs2, p, i, fs2[p][i], ss2[p][i])
    {
      if p != k + 1 {
        var o := if p <= k then p else p - 1;
        assert LinkOk(ns2, hs2, if o <= k then o else o + 1, i, fs'[o][i], ss'[o][i]);
      }
    }
  }

  /** After an insertion the header's top link is not null, if it was not before or the node is that tall. */
  lemma TopLinkAfterInsert(ns: seq<Node>, hs: seq<nat>, fs: seq<seq<Node?>>, ss: seq<seq<U64>>,
                           k: nat, us: seq<nat>, level: nat, h: nat, node: Node,
                           fs': seq<seq<Node?>>, ss': seq<seq<U64>>)
    requires Linked(ns, hs, fs, ss) && Preds(hs, k, us, level) && h <= level
    requires Shaped(ns, hs, fs', ss') && InsertWrote(hs, k, us, level, h, node, fs, ss, fs', ss')
    requires 0 < level <= hs[0] && (fs[0][level - 1] == null ==> h == level)
    ensures fs'[0][level - 1] != null
  {
    var i := level - 1;
    assert IsPred(hs, k, i, us[i]);
    assert LinkOk(ns, hs, 0, i, fs[0][i], ss[0][i]);
    assert InsertedSlot(us[i], k, h, node, 0, i, fs[0][i], ss[0][i], fs'[0][i], ss'[0][i]);
  }

  /** The two loops of Insert together: every level linked, every span exact, and the top level not empty. */
  lemma InsertionLinks(ns: seq<Node>, hs: seq<nat>, fs: seq<seq<Node?>>, ss: seq<seq<U64>>,
                       k: nat, us: seq<nat>, level: nat, h: nat, node: Node,
                       fs': seq<seq<Node?>>, ss1: seq<seq<U64>>, ss': seq<seq<U64>>, nf: seq<Node?>, nsp: seq<U64>)
    requires Linked(ns, hs, fs, ss) && Preds(hs, k, us, level) && h <= level
    requires Shaped(ns, hs, fs', ss1) && Shaped(ns, hs, fs', ss')
    requires Spliced(hs, k, us, h, node, h, fs, ss, fs', ss1)
    requires Bumped(hs, us, h, level, ss1, ss')
    requires |nf| == |nsp| == h
    requires forall i :: 0 <= i < h ==> nf[i] == fs[us[i]][i] && nsp[i] == WrapSub(ss[us[i]][i], k - us[i])
    requires 0 < level <= hs[0] && (fs[0][level - 1] == null ==> h == level)
    ensures Linked(InsertAt(ns, k + 1, node), InsertAt<nat>(hs, k + 1, h),
                   InsertAt(fs', k + 1, nf), InsertAt<seq<U64>>(ss', k + 1, nsp))
    ensures fs'[0][level - 1] != null
  {
    SplicedThenBumped(hs, k, us, level, h, node, fs, ss, fs', ss1, ss');
    InsertKeepsLinked(ns, hs, fs, ss, k, us, level, h, node, fs', ss', nf, nsp);
    TopLinkAfterInsert(ns, hs, fs, ss, k, us, level, h, node, fs', ss');
  }

  /** The slots once DeleteNode has done levels below n; the victim at k + 1 keeps its own. */
  ghost predicate Unspliced(hs: seq<nat>, k: nat, us: seq<nat>, n: nat,
                            fs: seq<seq<Node?>>, ss: seq<seq<U64>>, fs': seq<seq<Node?>>, ss': seq<seq<U64>>)
    requires Sized(hs, fs, ss) && Sized(hs, fs', ss') && k + 1 < |hs| && n <= |us|
  {
    && fs'[k + 1] == fs[k + 1] && ss'[k + 1] == ss[k + 1]
    && (forall p, i {:trigger RemovedAt(hs, k, us, fs, ss, p, i, fs'[p][i], ss'[p][i])} ::
          0 <= p < |hs| && p != k + 1 && 0 <= i < hs[p] && i < n ==>
          RemovedAt(hs, k, us, fs, ss, p, i, fs'[p][i], ss'[p][i]))
    && (forall p, i :: 0 <= p < |hs| && n <= i < hs[p] ==> fs'[p][i] == fs[p][i] && ss'[p][i] == ss[p][i])
  }

  /** RemovedSlot with the victim's slots read from the old list. */
  ghost predicate RemovedAt(hs: seq<nat>, k: nat, us: seq<nat>, fs: seq<seq<Node?>>, ss: seq<seq<U64>>,
                            p: nat, i: nat, f': Node?, s': U64)
    requires Sized(hs, fs, ss) && k + 1 < |hs| && i < |us| && p < |hs| && i < hs[p]
  {
    RemovedSlot(us[i], hs[k + 1] > i, p, fs[p][i], ss[p][i],
                if hs[k + 1] > i then fs[k + 1][i] else null, if hs[k + 1] > i then ss[k + 1][i] else 0, f', s')
  }

  /** What one round of DeleteNode's loop writes into the predecessor's slot. */
  ghost function UnlinkedForward(tall: bool, f: Node?, xf: Node?): Node? {
    if tall then xf else f
  }

  ghost function UnlinkedSpan(tall: bool, s: U64, xf: Node?, xs: U64): U64 {
    if !tall then WrapSub(s, 1) else if xf != null then WrapAdd(s, WrapSub(xs, 1)) else 0
  }

  lemma UnspliceOneMore(hs: seq<nat>, k: nat, us: seq<nat>, n: nat,
                        fs: seq<seq<Node?>>, ss: seq<seq<U64>>, fs': seq<seq<Node?>>, ss': seq<seq<U64>>,
                        f: Node?, s: U64)
    requires Sized(hs, fs, ss) && Sized(hs, fs', ss') && k + 1 < |hs| && n < |us|
    requires us[n] <= k && n < hs[us[n]]
    requires Unspliced(hs, k, us, n, fs, ss, fs', ss')
    requires RemovedAt(hs, k, us, fs, ss, us[n], n, f, s)
    ensures Unspliced(hs, k, us, n + 1, fs, ss, Put(fs', us[n], n, f), Put<U64>(ss', us[n], n, s))
  {
    var fs2, ss2 := Put(fs', us[n], n, f), Put<U64>(ss', us[n], n, s);
    forall p, i | 0 <= p < |hs| && p != k + 1 && 0 <= i < hs[p] && i < n + 1
      ensures RemovedAt(hs, k, us, fs, ss, p, i, fs2[p][i], ss2[p][i])
    {
      if i < n {
        assert RemovedAt(hs, k, us, fs, ss, p, i, fs'[p][i], ss'[p][i]);
      }
    }
  }

  /** The predecessor's link at level i is a pointer to the victim exactly when the victim has that level. */
  lemma PointsToVictim(ns: seq<Node>, hs: seq<nat>, fs: seq<seq<Node?>>, ss: seq<seq<U64>>, k: nat, u: nat, i: nat)
    requires Linked(ns, hs, fs, ss) && Distinct(ns) && k + 1 < |hs| && IsPred(hs, k, i, u)
    ensures fs[u][i] == ns[k + 1] <==> hs[k + 1] > i
  {
    assert LinkOk(ns, hs, u, i, fs[u][i], ss[u][i]);
    PredReachesVictim(hs, k, u, i);
  }

  lemma RemoveKeepsHighLink(ns: seq<Node>, hs: seq<nat>, x: nat, i: nat, f: Node?, s: int, s': int)
    requires |ns| == |hs| && 0 < x < |hs|
    requires forall p :: 0 < p < |hs| ==> hs[p] <= i
    requires LinkOk(ns, hs, 0, i, f, s)
    ensures LinkOk(RemoveAt(ns, x), RemoveAt<nat>(hs, x), 0, i, f, s')
  {
    NextTallRemove(hs, x, 0, i);
  }

  lemma RemovedLink(ns: seq<Node>, hs: seq<nat>, fs: seq<seq<Node?>>, ss: seq<seq<U64>>,
                    k: nat, us: seq<nat>, level: nat, fs': seq<seq<Node?>>, ss': seq<seq<U64>>, p: nat, i: nat)
    requires Linked(ns, hs, fs, ss) && Preds(hs, k, us, level) && k + 1 < |hs|
    requires Shaped(ns, hs, fs', ss') && Unspliced(hs, k, us, level, fs, ss, fs', ss')
    requires p < |hs| && p != k + 1 && i < hs[p]
    ensures LinkOk(RemoveAt(ns, k + 1), RemoveAt<nat>(hs, k + 1), if p <= k then p else p - 1, i, fs'[p][i], ss'[p][i])
  {
    assert LinkOk(ns, hs, p, i, fs[p][i], ss[p][i]);
    if i < level {
      if hs[k + 1] > i {
        assert LinkOk(ns, hs, k + 1, i, fs[k + 1][i], ss[k + 1][i]);
      }
      assert RemovedAt(hs, k, us, fs, ss, p, i, fs'[p][i], ss'[p][i]);
      RemoveKeepsLink(ns, hs, k, us[i], p, i, fs[p][i], ss[p][i],
                      if hs[k + 1] > i then fs[k + 1][i] else null, if hs[k + 1] > i then ss[k + 1][i] else 0,
                      fs'[p][i], ss'[p][i], if p <= k then p else p - 1,
                      RemoveAt(ns, k + 1), RemoveAt<nat>(hs, k + 1));
    } else {
      assert p == 0;
      RemoveKeepsHighLink(ns, hs, k + 1, i, fs[0][i], ss[0][i], ss'[0][i]);
    }
  }

  /** Unlinking the node at position k + 1 keeps every level linked and every span exact. */
  lemma RemoveKeepsLinked(ns: seq<Node>, hs: seq<nat>, fs: seq<seq<Node?>>, ss: seq<seq<U64>>,
                          k: nat, us: seq<nat>, level: nat, fs': seq<seq<Node?>>, ss': seq<seq<U64>>)
    requires Linked(ns, hs, fs, ss) && Preds(hs, k, us, level) && k + 1 < |hs|
    requires Shaped(ns, hs, fs', ss') && Unspliced(hs, k, us, level, fs, ss, fs', ss')
    ensures Linked(RemoveAt(ns, k + 1), RemoveAt<nat>(hs, k + 1), RemoveAt(fs', k + 1), RemoveAt<seq<U64>>(ss', k + 1))
  {
    forall p, i | 0 <= p < |hs| && p != k + 1 && 0 <= i < hs[p]
      ensures LinkOk(RemoveAt(ns, k + 1), RemoveAt<nat>(hs, k + 1),
                     if p <= k then p else p - 1, i, fs'[p][i], ss'[p][i])
    {
      RemovedLink(ns, hs, fs, ss, k, us, level, fs', ss', p, i);
    }
    RemovedAssemble(RemoveAt(ns, k + 1), hs, k, fs', ss');
  }

  lemma RemovedAssemble(ns2: seq<Node>, hs: seq<nat>, k: nat, fs': seq<seq<Node?>>, ss': seq<seq<U64>>)
    requires k + 1 < |hs| == |fs'| == |ss'| && |ns2| == |hs| - 1
    requires forall p :: 0 <= p < |hs| ==> |fs'[p]| == |ss'[p]| == hs[p]
    requires forall p, i :: 0 <= p < |hs| && p != k + 1 && 0 <= i < hs[p] ==>
               LinkOk(ns2, RemoveAt<nat>(hs, k + 1), if p <= k then p else p - 1, i, fs'[p][i], ss'[p][i])
    ensures Linked(ns2, RemoveAt<nat>(hs, k + 1), RemoveAt(fs', k + 1), RemoveAt<seq<U64>>(ss', k + 1))
  {
    var hs2, fs2, ss2 := RemoveAt<nat>(hs, k + 1), RemoveAt(fs', k + 1), RemoveAt<seq<U64>>(ss', k + 1);
    forall p, i | 0 <= p < |hs2| && 0 <= i < hs2[p]
      ensures LinkOk(ns2, hs2, p, i, fs2[p][i], ss2[p][i])
    {
      var o := if p <= k then p else p + 1;
      assert LinkOk(ns2, hs2, if o <= k then o else o - 1, i, fs'[o][i], ss'[o][i]);
    }
  }

  /** The positions after p that are taller than i, in order: what a walk along level i visits. */
  ghost function TallFrom(hs: seq<nat>, p: nat, i: nat): seq<nat>
    requires p < |hs|
    decreases |hs| - p
  {
    var q := NextTall(hs, p, i);
    if q == |hs| then [] else [q] + TallFrom(hs, q, i)
  }

  lemma {:induction false} TallFromElements(hs: seq<nat>, p: nat, i: nat)
    requires p < |hs|
    ensures forall r :: r in TallFrom(hs, p, i) <==> p < r < |hs| && hs[r] > i
    ensures forall a, b :: 0 <= a < b < |TallFrom(hs, p, i)| ==> TallFrom(hs, p, i)[a] < TallFrom(hs, p, i)[b]
    decreases |hs| - p
  {
    var q := NextTall(hs, p, i);
    if q < |hs| {
      TallFromElements(hs, q, i);
      var t, u := TallFrom(hs, p, i), TallFrom(hs, q, i);
      forall a, b | 0 <= a < b < |t|
        ensures t[a] < t[b]
      {
        assert t[b] == u[b - 1] && u[b - 1] in u;
        assert t[a] == if a == 0 then q else u[a - 1];
      }
    }
  }

  /** The nodes at those positions. */
  ghost function NodesAt(ns: seq<Node>, ps: seq<nat>): seq<Node> {
    if ps == [] then [] else (if ps[0] < |ns| then [ns[ps[0]]] else []) + NodesAt(ns, ps[1..])
  }
}
