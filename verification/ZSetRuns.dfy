/** Whole runs of sorted-set commands: the two indexes agree after every command, whatever the arguments and levels. */
module ZSetRuns {
  import opened Common
  import opened Float
  import opened SortedKeys
  import opened SortedRanges
  import opened ZSetSpec
  import opened ZSets
  import opened Windows

  datatype Cmd =
    | Add(flags: Flags, pairs: seq<Pair>)
    | IncrBy(pair: Pair)
    | Rem(members: seq<Bytes>)
    | Pop(minMode: bool, count: nat)
    | RemByRank(start: int, stop: int)
    | RemByScore(range: ScoreRange)

  /** The most members a command can add. */
  function Growth(cmd: Cmd): nat {
    match cmd
    case Add(_, pairs) => |pairs| + 1
    case IncrBy(_) => 1
    case _ => 0
  }

  function TotalGrowth(cmds: seq<Cmd>): nat {
    if cmds == [] then 0 else Growth(cmds[0]) + TotalGrowth(cmds[1..])
  }

  /** The pairs taken leave, everything else stays as it is. */
  ghost predicate Leaves(d: Dict, d': Dict, taken: seq<Elem>) {
    d' == Without(d, MemberSeq(taken)) && |d| == |d'| + |taken|
  }

  /** The n least or greatest pairs of the sorted order leave, and are the answer. */
  ghost predicate Pops(d: Dict, d': Dict, minMode: bool, count: nat, r: Reply) {
    exists s {:trigger Agree(d, s)} ::
      Agree(d, s) &&
      var taken := TakeEnd(s, minMode, if count < |s| then count else |s|);
      r == Popped(taken) && Leaves(d, d', taken)
  }

  /** The pairs of the rank window leave, and their number is the answer. */
  ghost predicate DropsRanks(d: Dict, d': Dict, start: int, stop: int, r: Reply) {
    exists s {:trigger Agree(d, s)} ::
      Agree(d, s) && r == Count(|Window(s, start, stop)|) && Leaves(d, d', Window(s, start, stop))
  }

  /** A removal by score keeps the others' scores, and its answer is the drop in cardinality. */
  ghost predicate DropsScores(d: Dict, d': Dict, range: ScoreRange, r: Reply) {
    d' == (map m | m in d && !InRange(range, d[m]) :: d[m]) && r.Count? && r.n + |d'| == |d|
  }

  /** What one command does to the members and their scores. */
  ghost predicate Effect(d: Dict, d': Dict, cmd: Cmd, r: Reply, add: (F64, F64) -> F64) {
    match cmd
    case Add(f, ps) => (d', r) == ZAddResult(d, f, ps, add)
    case IncrBy(p) => (d', r) == if BadScore(p) then (d, NotFloat) else Incremented(d, p.member, p.score.value, add)
    case Rem(ms) => d' == d - (set m | m in ms) && r.Count? && r.n + |d'| == |d|
    case Pop(minMode, count) => Pops(d, d', minMode, count, r)
    case RemByRank(start, stop) => DropsRanks(d, d', start, stop, r)
    case RemByScore(range) => DropsScores(d, d', range, r)
  }

  /** Sizes stay within what the commands can add. */
  lemma EffectSize(d: Dict, d': Dict, cmd: Cmd, r: Reply, add: (F64, F64) -> F64)
    requires Effect(d, d', cmd, r, add)
    ensures |d'| <= |d| + Growth(cmd)
  {
    match cmd {
      case Add(f, ps) =>
        if ps != [] && !f.incr {
          AddPairsCounts(d, f, ps);
        }
      case _ =>
    }
  }

  lemma AgreedKeys(d: Dict, s: seq<Elem>, d': Dict, s': seq<Elem>, m: Bytes)
    requires Agree(d, s) && Agree(d', s') && (forall e :: e in s' ==> e in s) && m in d'
    ensures m in d && d'[m] == d[m]
  {
    assert Elem(d'[m], m) in s';
  }

  lemma KeptKeys(d: Dict, s: seq<Elem>, d': Dict, s': seq<Elem>, m: Bytes)
    requires Agree(d, s) && Agree(d', s') && m in d
    ensures Elem(d[m], m) in s && (Elem(d[m], m) in s' ==> m in d' && d'[m] == d[m])
  {
  }

  lemma TakenMember(d: Dict, s: seq<Elem>, taken: seq<Elem>, m: Bytes)
    requires Agree(d, s) && (forall e :: e in taken ==> e in s) && m in d
    ensures m in MemberSeq(taken) <==> Elem(d[m], m) in taken
  {
    if m in MemberSeq(taken) {
      var i :| 0 <= i < |taken| && MemberSeq(taken)[i] == m;
      assert taken[i] in taken && taken[i] in s;
    }
    if Elem(d[m], m) in taken {
      var i :| 0 <= i < |taken| && taken[i] == Elem(d[m], m);
      assert MemberSeq(taken)[i] == m;
    }
  }

  /** When exactly some pairs left the sorted index, exactly their members left the map. */
  lemma PairsLeave(d: Dict, s: seq<Elem>, d': Dict, s': seq<Elem>, taken: seq<Elem>)
    requires Agree(d, s) && Agree(d', s') && |s'| + |taken| == |s|
    requires forall e :: e in taken ==> e in s
    requires forall e :: e in s' <==> e in s && e !in taken
    ensures Leaves(d, d', taken)
  {
    var ms := MemberSeq(taken);
    WithoutIs(d, ms);
    var w := Without(d, ms);
    forall m
      ensures m in d' <==> m in w
    {
      if m in d' {
        AgreedKeys(d, s, d', s', m);
        assert Elem(d'[m], m) in s';
      }
      if m in d {
        KeptKeys(d, s, d', s', m);
        TakenMember(d, s, taken, m);
      }
    }
    forall m | m in d'
      ensures d'[m] == w[m]
    {
      AgreedKeys(d, s, d', s', m);
    }
    assert d' == w;
    AgreeOnce(d, s);
    AgreeOnce(d', s');
  }

  lemma DistinctPairs(s: seq<Elem>, i: nat, j: nat)
    requires Sorted(s) && i < |s| && j < |s| && s[i] == s[j]
    ensures i == j
  {
    KeyTrichotomy(s[i], s[j]);
  }

  /** A sorted sequence is split by a pop without overlap. */
  lemma EndsSplit(s: seq<Elem>, minMode: bool, n: nat, e: Elem)
    requires Sorted(s) && n <= |s|
    ensures e in TakeEnd(s, minMode, n) ==> e in s
    ensures e in LeaveEnd(s, minMode, n) <==> e in s && e !in TakeEnd(s, minMode, n)
  {
    var taken, left := TakeEnd(s, minMode, n), LeaveEnd(s, minMode, n);
    if e in s {
      var i :| 0 <= i < |s| && s[i] == e;
      if minMode {
        assert i < n ==> taken[i] == e;
        assert i >= n ==> left[i - n] == e;
      } else {
        assert i < |s| - n ==> left[i] == e;
        assert i >= |s| - n ==> taken[|s| - 1 - i] == e;
      }
    }
    if e in taken && e in left {
      var i :| 0 <= i < |taken| && taken[i] == e;
      var j :| 0 <= j < |left| && left[j] == e;
      DistinctPairs(s, if minMode then i else |s| - 1 - i, if minMode then n + j else j);
    }
  }

  method StepPop(z: ZSet, minMode: bool, count: nat) returns (r: Reply)
    requires z.Valid()
    modifies z, z.sl, z.sl.repr
    ensures z.Valid() && z.sl.repr == old(z.sl.repr) && Pops(old(z.dict), z.dict, minMode, count, r)
  {
    ghost var d, s := z.dict, z.sl.elems;
    ghost var n := if count < |s| then count else |s|;
    var popped := z.ZPop(minMode, count);
    PopLeaves(d, s, z.dict, z.sl.elems, minMode, n);
    r := Popped(popped);
  }

  lemma PopLeaves(d: Dict, s: seq<Elem>, d': Dict, s': seq<Elem>, minMode: bool, n: nat)
    requires Agree(d, s) && Agree(d', s') && n <= |s| && s' == LeaveEnd(s, minMode, n)
    ensures Leaves(d, d', TakeEnd(s, minMode, n))
  {
    forall e
      ensures e in TakeEnd(s, minMode, n) ==> e in s
      ensures e in s' <==> e in s && e !in TakeEnd(s, minMode, n)
    {
      EndsSplit(s, minMode, n, e);
    }
    PairsLeave(d, s, d', s', TakeEnd(s, minMode, n));
  }

  method StepByRank(z: ZSet, start: int, stop: int) returns (r: Reply)
    requires z.Valid()
    modifies z, z.sl, z.sl.repr
    ensures z.Valid() && z.sl.repr == old(z.sl.repr) && DropsRanks(old(z.dict), z.dict, start, stop, r)
  {
    ghost var d, s := z.dict, z.sl.elems;
    var n := z.ZRemRangeByRank(start, stop);
    RanksLeave(d, s, z.dict, z.sl.elems, start, stop);
    r := Count(n);
  }

  lemma RanksLeave(d: Dict, s: seq<Elem>, d': Dict, s': seq<Elem>, start: int, stop: int)
    requires Agree(d, s) && Agree(d', s') && |d| == |d'| + |Window(s, start, stop)|
    requires forall e :: e in s' <==> e in s && e !in Window(s, start, stop)
    ensures Leaves(d, d', Window(s, start, stop))
  {
    AgreeOnce(d, s);
    AgreeOnce(d', s');
    WindowSorted(s, start, stop);
    PairsLeave(d, s, d', s', Window(s, start, stop));
  }

  method StepByScore(z: ZSet, range: ScoreRange) returns (r: Reply)
    requires z.Valid()
    modifies z, z.sl, z.sl.repr
    ensures z.Valid() && z.sl.repr == old(z.sl.repr) && DropsScores(old(z.dict), z.dict, range, r)
  {
    ghost var d, s := z.dict, z.sl.elems;
    var n := z.ZRemRangeByScore(range);
    ScoresLeave(d, s, z.dict, z.sl.elems, range);
    r := Count(n);
  }

  lemma ScoresLeave(d: Dict, s: seq<Elem>, d': Dict, s': seq<Elem>, range: ScoreRange)
    requires Agree(d, s) && Agree(d', s')
    requires forall e :: e in s' <==> e in s && !InRange(range, e.score)
    ensures d' == map m | m in d && !InRange(range, d[m]) :: d[m]
  {
    forall m
      ensures m in d' <==> m in d && !InRange(range, d[m])
      ensures m in d' ==> m in d && d'[m] == d[m]
    {
      if m in d' {
        AgreedKeys(d, s, d', s', m);
        assert Elem(d'[m], m) in s';
      }
      if m in d {
        KeptKeys(d, s, d', s', m);
      }
    }
  }

  method StepAdd(z: ZSet, cmd: Cmd, add: (F64, F64) -> F64) returns (r: Reply)
    requires z.Valid() && |z.dict| + Growth(cmd) < TWO63 - 2 && (cmd.Add? || cmd.IncrBy?)
    modifies z, z.sl, z.sl.repr
    ensures z.Valid() && fresh(z.sl.repr - old(z.sl.repr)) && Effect(old(z.dict), z.dict, cmd, r, add)
  {
    if cmd.Add? {
      r := z.ZAdd(cmd.flags, cmd.pairs, add);
    } else {
      r := z.ZIncrBy(cmd.pair, add);
    }
  }

  method StepRem(z: ZSet, ms: seq<Bytes>) returns (r: Reply)
    requires z.Valid()
    modifies z, z.sl, z.sl.repr
    ensures z.Valid() && z.sl.repr == old(z.sl.repr)
    ensures z.dict == old(z.dict) - (set m | m in ms) && r.Count? && r.n + |z.dict| == |old(z.dict)|
  {
    var n := z.ZRem(ms);
    r := Count(n);
  }

  method Step(z: ZSet, cmd: Cmd, add: (F64, F64) -> F64) returns (r: Reply)
    requires z.Valid() && |z.dict| + Growth(cmd) < TWO63 - 2
    modifies z, z.sl, z.sl.repr
    ensures z.Valid() && fresh(z.sl.repr - old(z.sl.repr)) && Effect(old(z.dict), z.dict, cmd, r, add)
  {
    match cmd {
      case Rem(ms) => r := StepRem(z, ms);
      case Pop(minMode, count) => r := StepPop(z, minMode, count);
      case RemByRank(start, stop) => r := StepByRank(z, start, stop);
      case RemByScore(range) => r := StepByScore(z, range);
      case _ => r := StepAdd(z, cmd, add);
    }
  }

  /** The maps a run goes through, one command at a time. */
  ghost predicate Trace(ds: seq<Dict>, cmds: seq<Cmd>, replies: seq<Reply>, add: (F64, F64) -> F64) {
    |ds| == |cmds| + 1 && |replies| == |cmds| &&
    forall i :: 0 <= i < |cmds| ==> Effect(ds[i], ds[i + 1], cmds[i], replies[i], add)
  }

  method Run(z: ZSet, cmds: seq<Cmd>, add: (F64, F64) -> F64) returns (replies: seq<Reply>, ghost ds: seq<Dict>)
    requires z.Valid() && |z.dict| + TotalGrowth(cmds) < TWO63 - 2
    modifies z, z.sl, z.sl.repr
    ensures z.Valid() && fresh(z.sl.repr - old(z.sl.repr))
    ensures Trace(ds, cmds, replies, add) && ds[0] == old(z.dict) && ds[|cmds|] == z.dict
    decreases |cmds|
  {
    replies, ds := [], [z.dict];
    if cmds != [] {
      var first := Step(z, cmds[0], add);
      EffectSize(ds[0], z.dict, cmds[0], first, add);
      var more, rest := Run(z, cmds[1..], add);
      replies, ds := [first] + more, ds + rest;
    }
  }
}
