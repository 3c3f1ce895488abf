/**
The two indexes of a sorted set as values: a member-to-score map and a sorted sequence.  `Agree` says that they
hold the same pairs; the lemmas say which steps keep it.
*/
module ZSetSpec {
  import opened Common
  import opened Float
  import opened SkipLinks
  import opened SortedKeys

  type Dict = map<Bytes, F64>

  ghost predicate Agree(d: Dict, s: seq<Elem>) {
    Sorted(s) && forall e :: e in s <==> e.member in d && d[e.member] == e.score
  }

  /** Each member occurs once in the sequence, and both indexes have the same size. */
  lemma AgreeOnce(d: Dict, s: seq<Elem>)
    requires Agree(d, s)
    ensures forall i, j :: 0 <= i < j < |s| ==> s[i].member != s[j].member
    ensures |s| == |d|
  {
    forall i, j | 0 <= i < j < |s|
      ensures s[i].member != s[j].member
    {
      assert s[i] in s && s[j] in s;
      assert KeyLess(s[i], s[j]);
      KeyTrichotomy(s[i], s[j]);
    }
    MemberSet(s);
    var members := set i | 0 <= i < |s| :: s[i].member;
    forall m
      ensures m in members <==> m in d.Keys
    {
      if m in d {
        assert Elem(d[m], m) in s;
        var i :| 0 <= i < |s| && s[i] == Elem(d[m], m);
        assert s[i].member in members;
      }
      if m in members {
        var i :| 0 <= i < |s| && s[i].member == m;
        assert s[i] in s;
      }
    }
    assert members == d.Keys;
  }

  lemma {:induction false} MemberSet(s: seq<Elem>)
    requires forall i, j :: 0 <= i < j < |s| ==> s[i].member != s[j].member
    ensures |set i | 0 <= i < |s| :: s[i].member| == |s|
  {
    if s != [] {
      var t := s[..|s| - 1];
      MemberSet(t);
      var a, b := set i | 0 <= i < |s| :: s[i].member, set i | 0 <= i < |t| :: t[i].member;
      assert a == b + {s[|s| - 1].member} by {
        forall m | m in a
          ensures m in b + {s[|s| - 1].member}
        {
          var i :| 0 <= i < |s| && s[i].member == m;
          assert i < |t| ==> t[i].member in b;
        }
        forall m | m in b
          ensures m in a
        {
          var i :| 0 <= i < |t| && t[i].member == m;
          assert s[i].member in a;
        }
      }
    }
  }

  /** Erasing a member at its recorded score removes it from both. */
  lemma EraseAgrees(d: Dict, s: seq<Elem>, m: Bytes)
    requires Agree(d, s) && m in d
    ensures Present(s, Elem(d[m], m))
    ensures Agree(d - {m}, Erased(s, Elem(d[m], m)))
  {
    var key := Elem(d[m], m);
    assert key in s;
    var i :| 0 <= i < |s| && s[i] == key;
    LowerBoundOfElement(s, i);
    ErasedSorted(s, key);
    forall e
      ensures e in Erased(s, key) <==> e.member in d - {m} && (d - {m})[e.member] == e.score
    {
      ErasedElements(s, key, e);
    }
  }

  /** Inserting a member the map does not hold adds it to both. */
  lemma InsertAgrees(d: Dict, s: seq<Elem>, m: Bytes, score: F64)
    requires Agree(d, s) && m !in d && !IsNaN(score)
    ensures Agree(d[m := score], Inserted(s, Elem(score, m)))
  {
    var key := Elem(score, m);
    InsertedSorted(s, key);
    forall e
      ensures e in Inserted(s, key) <==> e.member in d[m := score] && d[m := score][e.member] == e.score
    {
      InsertedElements(s, key, e);
    }
  }

  /** Removing the pair at an index from both. */
  lemma RemoveAgrees(d: Dict, s: seq<Elem>, i: nat)
    requires Agree(d, s) && i < |s|
    ensures s[i].member in d && Agree(d - {s[i].member}, RemoveAt(s, i))
  {
    assert s[i] in s;
    EraseAgrees(d, s, s[i].member);
    LowerBoundOfElement(s, i);
  }

  /** Moving a member to a new score. */
  lemma RescoreAgrees(d: Dict, s: seq<Elem>, m: Bytes, score: F64)
    requires Agree(d, s) && m in d && !IsNaN(score)
    ensures Agree(d[m := score], Inserted(Erased(s, Elem(d[m], m)), Elem(score, m)))
    ensures |Erased(s, Elem(d[m], m))| < |d|
  {
    EraseAgrees(d, s, m);
    AgreeOnce(d, s);
    InsertAgrees(d - {m}, Erased(s, Elem(d[m], m)), m, score);
    assert (d - {m})[m := score] == d[m := score];
  }

  /** The sequence is a function of the map. */
  lemma AgreeUnique(d: Dict, s: seq<Elem>, t: seq<Elem>)
    requires Agree(d, s) && Agree(d, t)
    ensures s == t
  {
    SortedUnique(s, t);
  }

  /** The n pairs taken from one end, least first or greatest first, and what they leave. */
  function TakeEnd(s: seq<Elem>, minMode: bool, n: nat): seq<Elem>
    requires n <= |s|
  {
    if minMode then s[..n] else Reverse(s)[..n]
  }

  function LeaveEnd(s: seq<Elem>, minMode: bool, n: nat): seq<Elem>
    requires n <= |s|
  {
    if minMode then s[n..] else s[..|s| - n]
  }

  function EndIndex(s: seq<Elem>, minMode: bool): nat
    requires s != []
  {
    if minMode then 0 else |s| - 1
  }

  lemma TakeOneMore(s: seq<Elem>, minMode: bool, n: nat)
    requires n < |s|
    ensures var t := LeaveEnd(s, minMode, n);
            && t != [] && TakeEnd(s, minMode, n + 1) == TakeEnd(s, minMode, n) + [t[EndIndex(t, minMode)]]
            && LeaveEnd(s, minMode, n + 1) == RemoveAt(t, EndIndex(t, minMode))
  {
  }

  /** The map after removing members one by one, and what that amounts to. */
  function Without(d: Dict, ms: seq<Bytes>): Dict {
    if ms == [] then d else Without(d, ms[..|ms| - 1]) - {ms[|ms| - 1]}
  }

  lemma {:induction false} WithoutIs(d: Dict, ms: seq<Bytes>)
    ensures Without(d, ms) == d - (set m | m in ms)
  {
    if ms != [] {
      var init, last := ms[..|ms| - 1], ms[|ms| - 1];
      WithoutIs(d, init);
      assert ms == init + [last];
      assert (set m | m in ms) == (set m | m in init) + {last};
    }
  }

  function MemberSeq(s: seq<Elem>): seq<Bytes> {
    seq(|s|, i requires 0 <= i < |s| => s[i].member)
  }

  /** Pairs not yet removed are still in both indexes; removing one more is one more step of Without. */
  lemma VictimStillThere(d: Dict, s: seq<Elem>, victims: seq<Elem>, i: nat, d': Dict, s': seq<Elem>)
    requires Agree(d, s) && Agree(d', s') && Sorted(victims) && i < |victims|
    requires forall j :: 0 <= j < |victims| ==> victims[j] in s
    requires d' == Without(d, MemberSeq(victims[..i]))
    ensures victims[i] in s'
    ensures Without(d, MemberSeq(victims[..i + 1])) == d' - {victims[i].member}
  {
    var ms := MemberSeq(victims[..i]);
    WithoutIs(d, ms);
    forall j | 0 <= j < |ms|
      ensures ms[j] != victims[i].member
    {
      assert victims[j] in s && victims[i] in s;
      assert KeyLess(victims[j], victims[i]);
      KeyTrichotomy(victims[j], victims[i]);
    }
    assert victims[i] in s;
    assert MemberSeq(victims[..i + 1])[..i] == ms;
  }

  /** Taking some pairs of the set out of the map leaves exactly the other pairs, and the size drops by their number. */
  lemma RemainingPairs(d: Dict, s: seq<Elem>, victims: seq<Elem>, d': Dict, s': seq<Elem>)
    requires Agree(d, s) && Agree(d', s') && Sorted(victims)
    requires forall i :: 0 <= i < |victims| ==> victims[i] in s
    requires d' == Without(d, MemberSeq(victims))
    ensures forall e :: e in s' <==> e in s && e !in victims
    ensures |d'| == |d| - |victims|
  {
    var ms := MemberSeq(victims);
    WithoutIs(d, ms);
    forall e
      ensures e in s' <==> e in s && e !in victims
    {
      if e in victims {
        var i :| 0 <= i < |victims| && victims[i] == e;
        assert ms[i] == e.member;
      }
      if e in s && e.member in ms {
        var i :| 0 <= i < |ms| && ms[i] == e.member;
        assert victims[i] in s && victims[i] == e;
      }
    }
    WithoutCount(d, s, victims);
  }

  lemma {:induction false} WithoutCount(d: Dict, s: seq<Elem>, victims: seq<Elem>)
    requires Agree(d, s) && Sorted(victims)
    requires forall i :: 0 <= i < |victims| ==> victims[i] in s
    ensures |Without(d, MemberSeq(victims))| == |d| - |victims|
  {
    if victims != [] {
      var n := |victims| - 1;
      var init := victims[..n];
      WithoutCount(d, s, init);
      var ms := MemberSeq(init);
      assert MemberSeq(victims)[..n] == ms;
      WithoutIs(d, ms);
      forall j | 0 <= j < n
        ensures ms[j] != victims[n].member
      {
        assert victims[j] in s && victims[n] in s;
        assert KeyLess(victims[j], victims[n]);
        KeyTrichotomy(victims[j], victims[n]);
      }
      assert victims[n] in s;
      DropShrinks(Without(d, ms), victims[n].member);
    }
  }

  lemma DropShrinks(d: Dict, m: Bytes)
    requires m in d
    ensures |d - {m}| == |d| - 1
  {
    assert d.Keys == (d - {m}).Keys + {m};
  }

  datatype Flags = Flags(nx: bool, xx: bool, ch: bool, incr: bool)

  /** A score argument as ParseDoubleStrict reads it (None when it does not parse) and a member. */
  datatype Pair = Pair(score: Option<F64>, member: Bytes)

  datatype Reply =
    | Count(n: nat)
    | Popped(pairs: seq<Elem>)
    | Score(score: F64)
    | Nil
    | SyntaxError
    | WrongArgs
    | NotFloat
    | Overflow

  predicate BadScore(p: Pair) {
    p.score.None? || IsNaN(p.score.value)
  }

  /** The map and the two counters once ZADD's loop has gone over some pairs; `ok` is false after a bad score. */
  datatype Progress = Progress(dict: Dict, added: nat, changed: nat, ok: bool)

  function AddPair(st: Progress, f: Flags, p: Pair): Progress
    requires !BadScore(p)
  {
    var m, score := p.member, p.score.value;
    if m in st.dict then
      if f.nx || Eq(st.dict[m], score) then st
      else st.(dict := st.dict[m := score], changed := st.changed + 1)
    else if f.xx then st
    else st.(dict := st.dict[m := score], added := st.added + 1, changed := st.changed + 1)
  }

  function AddPairs(d: Dict, f: Flags, ps: seq<Pair>): Progress {
    if ps == [] then Progress(d, 0, 0, true)
    else
      var st, p := AddPairs(d, f, ps[..|ps| - 1]), ps[|ps| - 1];
      if !st.ok then st else if BadScore(p) then st.(ok := false) else AddPair(st, f, p)
  }

  /** A bad score ends the loop: the pairs after it have no effect. */
  lemma {:induction false} AddPairsStops(d: Dict, f: Flags, ps: seq<Pair>, i: nat)
    requires i <= |ps| && !AddPairs(d, f, ps[..i]).ok
    ensures AddPairs(d, f, ps) == AddPairs(d, f, ps[..i])
  {
    if i < |ps| {
      assert ps[..|ps| - 1][..i] == ps[..i];
      AddPairsStops(d, f, ps[..|ps| - 1], i);
    } else {
      assert ps[..i] == ps;
    }
  }

  /** What the loop has done when it stops after i pairs, at the end or on a bad score. */
  lemma AddedAll(d: Dict, f: Flags, ps: seq<Pair>, i: nat)
    requires i <= |ps| && (i == |ps| || !AddPairs(d, f, ps[..i]).ok)
    ensures AddPairs(d, f, ps) == AddPairs(d, f, ps[..i])
  {
    if i == |ps| {
      assert ps[..i] == ps;
    } else {
      AddPairsStops(d, f, ps, i);
    }
  }

  lemma AddPairCounts(st: Progress, f: Flags, p: Pair)
    requires !BadScore(p)
    ensures var st' := AddPair(st, f, p);
            && |st'.dict| - |st.dict| == st'.added - st.added && st'.ok == st.ok
            && 0 <= st'.added - st.added <= st'.changed - st.changed <= 1
            && (st'.changed == st.changed ==> st'.dict == st.dict)
  {
  }

  /** The reply counts the growth of the set, with or without an error. */
  lemma {:induction false} AddPairsCounts(d: Dict, f: Flags, ps: seq<Pair>)
    ensures var st := AddPairs(d, f, ps);
            && |st.dict| == |d| + st.added && st.added <= st.changed <= |ps|
            && (st.changed == 0 ==> st.dict == d)
            && (st.ok <==> forall i :: 0 <= i < |ps| ==> !BadScore(ps[i]))
  {
    if ps != [] {
      var st, p := AddPairs(d, f, ps[..|ps| - 1]), ps[|ps| - 1];
      AddPairsCounts(d, f, ps[..|ps| - 1]);
      if !BadScore(p) {
        AddPairCounts(st, f, p);
      }
    }
  }

  /** No member is lost; NX keeps every old score, XX adds no member. */
  lemma {:induction false} AddPairsFlags(d: Dict, f: Flags, ps: seq<Pair>)
    ensures var st := AddPairs(d, f, ps);
            && d.Keys <= st.dict.Keys
            && (f.nx ==> forall m :: m in d ==> st.dict[m] == d[m])
            && (f.xx ==> st.dict.Keys == d.Keys && st.added == 0)
  {
    if ps != [] {
      AddPairsFlags(d, f, ps[..|ps| - 1]);
    }
  }

  /** Members that no pair names keep their score, and gain none. */
  lemma {:induction false} AddPairsFrame(d: Dict, f: Flags, ps: seq<Pair>, m: Bytes)
    requires forall i :: 0 <= i < |ps| ==> ps[i].member != m
    ensures var st := AddPairs(d, f, ps); (m in st.dict <==> m in d) && (m in d ==> st.dict[m] == d[m])
  {
    if ps != [] {
      AddPairsFrame(d, f, ps[..|ps| - 1], m);
    }
  }

  /** Without NX and XX the last pair naming a member decides its score. */
  lemma {:induction false} LastPairWins(d: Dict, f: Flags, ps: seq<Pair>, i: nat)
    requires !f.nx && !f.xx && i < |ps| && AddPairs(d, f, ps).ok
    requires forall j :: i < j < |ps| ==> ps[j].member != ps[i].member
    ensures var st := AddPairs(d, f, ps);
            ps[i].score.Some? && ps[i].member in st.dict && Eq(st.dict[ps[i].member], ps[i].score.value)
  {
    if i < |ps| - 1 {
      assert ps[..|ps| - 1][i] == ps[i];
      LastPairWins(d, f, ps[..|ps| - 1], i);
    }
  }

  /** The effect of adding to one score with the platform's double addition `add`; an infinite or NaN sum is refused. */
  function Incremented(d: Dict, m: Bytes, delta: F64, add: (F64, F64) -> F64): (r: (Dict, Reply))
    ensures r.0 == d || (m in r.0 && r.0 == d[m := r.0[m]] && r.1 == Score(r.0[m]) && !IsNaN(r.0[m]) && !IsInf(r.0[m]))
  {
    var res := add(if m in d then d[m] else 0, delta);
    if IsNaN(res) || IsInf(res) then (d, Overflow) else (d[m := res], Score(res))
  }

  /** ZADD after option parsing: the new map and the reply. */
  function ZAddResult(d: Dict, f: Flags, ps: seq<Pair>, add: (F64, F64) -> F64): (Dict, Reply) {
    if (f.nx && f.xx) || (f.incr && |ps| != 1) then (d, SyntaxError)
    else if |ps| == 0 then (d, WrongArgs)
    else if f.incr then
      var p := ps[0];
      if BadScore(p) then (d, NotFloat)
      else if (f.nx && p.member !in d) || (f.xx && p.member in d) then (d, Nil)
      else Incremented(d, p.member, p.score.value, add)
    else
      var st := AddPairs(d, f, ps);
      (st.dict, if st.ok then Count(if f.ch then st.changed else st.added) else NotFloat)
  }
}
