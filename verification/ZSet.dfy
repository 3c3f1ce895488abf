/** A sorted set: the dict and the skip list that every write command must keep in agreement. */
module ZSets {
  import opened Common
  import opened Float
  import opened SkipLinks
  import opened SortedKeys
  import opened SortedRanges
  import opened ZSkipList
  import opened ZSetSpec
  import opened Windows

  class ZSet {
    var dict: Dict
    const sl: SkipList

    ghost predicate Valid()
      reads this, sl, sl.nodes
    {
      sl.Valid() && Agree(dict, sl.elems)
    }

    constructor ()
      ensures Valid() && dict == map[] && fresh(sl) && fresh(sl.repr)
    {
      dict := map[];
      sl := new SkipList();
    }

    /** A present member moves to another score: erase, insert, then overwrite the dict entry. */
    method Rescore(member: Bytes, score: F64)
      requires Valid() && member in dict && !IsNaN(score) && |dict| < TWO63 - 2
      modifies this, sl, sl.repr
      ensures Valid() && dict == old(dict)[member := score]
      ensures fresh(sl.repr - old(sl.repr))
    {
      RescoreAgrees(dict, sl.elems, member, score);
      var removed := sl.Erase(dict[member], member);
      var added := sl.Insert(score, member);
      dict := dict[member := score];
    }

    /** A new member enters the dict, then the skip list. */
    method AddNew(member: Bytes, score: F64)
      requires Valid() && member !in dict && !IsNaN(score) && |dict| < TWO63 - 2
      modifies this, sl, sl.repr
      ensures Valid() && dict == old(dict)[member := score]
      ensures fresh(sl.repr - old(sl.repr))
    {
      InsertAgrees(dict, sl.elems, member, score);
      AgreeOnce(dict, sl.elems);
      dict := dict[member := score];
      var added := sl.Insert(score, member);
    }

    /** A present member leaves the skip list, then the dict. */
    method Drop(member: Bytes)
      requires Valid() && member in dict
      modifies this, sl, sl.repr
      ensures Valid() && dict == old(dict) - {member}
      ensures sl.repr == old(sl.repr)
    {
      EraseAgrees(dict, sl.elems, member);
      var removed := sl.Erase(dict[member], member);
      dict := dict - {member};
    }

    /** One round of ZADD's loop without INCR. */
    method AddOne(f: Flags, p: Pair, ghost st: Progress) returns (added: nat, changed: nat)
      requires Valid() && !BadScore(p) && |dict| < TWO63 - 2 && st.dict == dict
      modifies this, sl, sl.repr
      ensures Valid()
      ensures AddPair(st, f, p) == st.(dict := dict, added := st.added + added, changed := st.changed + changed)
      ensures fresh(sl.repr - old(sl.repr))
    {
      added, changed := 0, 0;
      var member, score := p.member, p.score.value;
      var exists_ := member in dict;
      if (f.nx && exists_) || (f.xx && !exists_) {
        return;
      }
      if exists_ {
        if !Eq(dict[member], score) {
          Rescore(member, score);
          changed := 1;
        }
      } else {
        AddNew(member, score);
        added, changed := 1, 1;
      }
    }

    /** Adds `delta` to the score of a member, starting from 0 when it is absent. */
    method Increment(member: Bytes, delta: F64, add: (F64, F64) -> F64) returns (reply: Reply)
      requires Valid() && |dict| < TWO63 - 2
      modifies this, sl, sl.repr
      ensures Valid() && (dict, reply) == Incremented(old(dict), member, delta, add)
      ensures fresh(sl.repr - old(sl.repr))
    {
      var res := add(if member in dict then dict[member] else 0, delta);
      if IsNaN(res) || IsInf(res) {
        return Overflow;
      }
      if member in dict {
        Rescore(member, res);
      } else {
        AddNew(member, res);
      }
      return Score(res);
    }

    /** One round of ZADD's loop: pair i of ps, unless its score is bad. */
    method AddAt(f: Flags, ps: seq<Pair>, i: nat, added0: nat, changed0: nat, ghost d0: Dict)
      returns (added: nat, changed: nat, ok: bool)
      requires Valid() && i < |ps| && AddPairs(d0, f, ps[..i]) == Progress(dict, added0, changed0, true)
      requires |d0| + |ps| < TWO63 - 2
      modifies this, sl, sl.repr
      ensures Valid() && AddPairs(d0, f, ps[..i + 1]) == Progress(dict, added, changed, ok)
      ensures fresh(sl.repr - old(sl.repr))
    {
      AddPairsCounts(d0, f, ps[..i]);
      assert ps[..i + 1][..i] == ps[..i];
      added, changed, ok := added0, changed0, !BadScore(ps[i]);
      if ok {
        var a, c := AddOne(f, ps[i], Progress(dict, added, changed, true));
        added, changed := added + a, changed + c;
      }
    }

    /** ZADD's loop: the dict after a full pass, or after the pairs before the first bad score. */
    method AddAll(f: Flags, ps: seq<Pair>) returns (added: nat, changed: nat, ok: bool)
      requires Valid() && |dict| + |ps| < TWO63 - 2
      modifies this, sl, sl.repr
      ensures Valid() && AddPairs(old(dict), f, ps) == Progress(dict, added, changed, ok)
      ensures fresh(sl.repr - old(sl.repr))
    {
      added, changed, ok := 0, 0, true;
      var i := 0;
      while i < |ps| && ok
        invariant 0 <= i <= |ps|
        invariant Valid() && AddPairs(old(dict), f, ps[..i]) == Progress(dict, added, changed, ok)
        invariant fresh(sl.repr - old(sl.repr))
      {
        added, changed, ok := AddAt(f, ps, i, added, changed, old(dict));
        i := i + 1;
      }
      AddedAll(old(dict), f, ps, i);
    }

    method ZAdd(f: Flags, ps: seq<Pair>, add: (F64, F64) -> F64) returns (reply: Reply)
      requires Valid() && |dict| + |ps| < TWO63 - 2
      modifies this, sl, sl.repr
      ensures Valid() && (dict, reply) == ZAddResult(old(dict), f, ps, add)
      ensures fresh(sl.repr - old(sl.repr))
    {
      if (f.nx && f.xx) || (f.incr && |ps| != 1) {
        return SyntaxError;
      }
      if |ps| == 0 {
        return WrongArgs;
      }
      if f.incr {
        var p := ps[0];
        if BadScore(p) {
          return NotFloat;
        }
        if (f.nx && p.member !in dict) || (f.xx && p.member in dict) {
          return Nil;
        }
        reply := Increment(p.member, p.score.value, add);
        return;
      }
      var added, changed, ok := AddAll(f, ps);
      reply := if ok then Count(if f.ch then changed else added) else NotFloat;
    }

    method ZIncrBy(p: Pair, add: (F64, F64) -> F64) returns (reply: Reply)
      requires Valid() && |dict| < TWO63 - 2
      modifies this, sl, sl.repr
      ensures Valid()
      ensures (dict, reply) == if BadScore(p) then (old(dict), NotFloat)
                               else Incremented(old(dict), p.member, p.score.value, add)
      ensures fresh(sl.repr - old(sl.repr))
    {
      if BadScore(p) {
        return NotFloat;
      }
      reply := Increment(p.member, p.score.value, add);
    }

    /** One member of ZREM. */
    method RemOne(m: Bytes) returns (n: nat)
      requires Valid()
      modifies this, sl, sl.repr
      ensures Valid() && dict == old(dict) - {m} && n == |old(dict)| - |dict| && sl.repr == old(sl.repr)
    {
      n := 0;
      if m in dict {
        DropShrinks(dict, m);
        Drop(m);
        n := 1;
      } else {
        assert dict - {m} == dict;
      }
    }

    /** ZREM: the reply is the drop in cardinality. */
    method ZRem(members: seq<Bytes>) returns (n: nat)
      requires Valid()
      modifies this, sl, sl.repr
      ensures Valid() && dict == old(dict) - (set m | m in members)
      ensures n == |old(dict)| - |dict|
      ensures sl.repr == old(sl.repr)
    {
      n := 0;
      for i := 0 to |members|
        invariant Valid() && dict == Without(old(dict), members[..i])
        invariant n == |old(dict)| - |dict| && sl.repr == old(sl.repr)
      {
        assert members[..i + 1][..i] == members[..i];
        var k := RemOne(members[i]);
        n := n + k;
      }
      assert members[..|members|] == members;
      WithoutIs(old(dict), members);
    }

    /** One pop from either end, with the dict entry. */
    method PopOne(minMode: bool) returns (r: Option<Elem>)
      requires Valid()
      modifies this, sl, sl.repr
      ensures Valid() && sl.repr == old(sl.repr)
      ensures var s := old(sl.elems);
              if s == [] then r == None && dict == old(dict) && sl.elems == []
              else var i := EndIndex(s, minMode);
                   && r == Some(s[i]) && sl.elems == RemoveAt(s, i)
                   && s[i].member in old(dict) && dict == old(dict) - {s[i].member}
    {
      ghost var s := sl.elems;
      if s != [] {
        RemoveAgrees(dict, s, EndIndex(s, minMode));
      }
      if minMode {
        r := sl.PopMin();
        assert s != [] ==> sl.elems == RemoveAt(s, 0);
      } else {
        r := sl.PopMax();
        assert s != [] ==> sl.elems == RemoveAt(s, |s| - 1);
      }
      if r.Some? {
        dict := dict - {r.value.member};
      }
    }

    /** ZPOPMIN and ZPOPMAX: the `count` least or greatest pairs, in that order, leave both indexes. */
    method ZPop(minMode: bool, count: nat) returns (popped: seq<Elem>)
      requires Valid()
      modifies this, sl, sl.repr
      ensures Valid() && sl.repr == old(sl.repr)
      ensures var s := old(sl.elems); var n := if count < |s| then count else |s|;
              popped == TakeEnd(s, minMode, n) && sl.elems == LeaveEnd(s, minMode, n)
    {
      popped := [];
      ghost var s := sl.elems;
      var i, more := 0, true;
      while i < count && more
        invariant 0 <= i <= count && |popped| <= |s| && (if more then |popped| == i else |popped| == |s| <= count)
        invariant Valid() && sl.repr == old(sl.repr)
        invariant popped == TakeEnd(s, minMode, |popped|) && sl.elems == LeaveEnd(s, minMode, |popped|)
        decreases count - i, more
      {
        if i < |s| {
          TakeOneMore(s, minMode, i);
        }
        var r := PopOne(minMode);
        more := r.Some?;
        if more {
          popped, i := popped + [r.value], i + 1;
        }
      }
    }

    /** Removes a pair the skip list holds from both indexes. */
    method DropPair(e: Elem)
      requires Valid() && e in sl.elems
      modifies this, sl, sl.repr
      ensures Valid() && sl.repr == old(sl.repr)
      ensures e.member in old(dict) && dict == old(dict) - {e.member}
    {
      EraseAgrees(dict, sl.elems, e.member);
      var removed := sl.Erase(e.score, e.member);
      dict := dict - {e.member};
    }

    /** The loop shared by ZREMRANGEBYRANK and ZREMRANGEBYSCORE over the pairs to remove. */
    method RemoveVictims(victims: seq<Elem>)
      requires Valid() && Sorted(victims) && forall i :: 0 <= i < |victims| ==> victims[i] in sl.elems
      modifies this, sl, sl.repr
      ensures Valid() && sl.repr == old(sl.repr)
      ensures dict == Without(old(dict), MemberSeq(victims))
    {
      for i := 0 to |victims|
        invariant Valid() && sl.repr == old(sl.repr)
        invariant dict == Without(old(dict), MemberSeq(victims[..i]))
      {
        VictimStillThere(old(dict), old(sl.elems), victims, i, dict, sl.elems);
        DropPair(victims[i]);
      }
      assert victims[..|victims|] == victims;
    }

    /** ZREMRANGEBYRANK: exactly the pairs in the rank window leave both indexes. */
    method ZRemRangeByRank(start: int, stop: int) returns (n: nat)
      requires Valid()
      modifies this, sl, sl.repr
      ensures Valid() && sl.repr == old(sl.repr)
      ensures forall e :: e in sl.elems <==> e in old(sl.elems) && e !in Window(old(sl.elems), start, stop)
      ensures n == |Window(old(sl.elems), start, stop)| == |old(dict)| - |dict|
    {
      var victims := sl.RanksAscending(start, stop);
      WindowSorted(sl.elems, start, stop);
      RemoveVictims(victims);
      RemainingPairs(old(dict), old(sl.elems), victims, dict, sl.elems);
      n := |victims|;
    }

    /** ZREMRANGEBYSCORE: exactly the pairs within the score bounds leave both indexes. */
    method ZRemRangeByScore(r: ScoreRange) returns (n: nat)
      requires Valid()
      modifies this, sl, sl.repr
      ensures Valid() && sl.repr == old(sl.repr)
      ensures forall e :: e in sl.elems <==> e in old(sl.elems) && !InRange(r, e.score)
      ensures n == |old(dict)| - |dict|
    {
      var range := sl.RangeByScore(r, false, 0, -1);
      var victims := range.value;
      WithinSorted(sl.elems, r);
      forall e
        ensures e in victims <==> e in sl.elems && InRange(r, e.score)
      {
        WithinElements(sl.elems, r, e);
      }
      RemoveVictims(victims);
      RemainingPairs(old(dict), old(sl.elems), victims, dict, sl.elems);
      n := |victims|;
    }
  }
}
