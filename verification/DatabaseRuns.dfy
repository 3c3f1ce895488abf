/**
Runs of a database, with deadlines set and cleared on the way.  Whatever expire cycles are interleaved, and wherever
they look, a run answers every lookup as a map that never drops an entry and compares deadlines only when it is read.
*/
module DatabaseRuns {
  import opened Common
  import opened Values
  import opened Databases

  datatype Op =
    | Look(idx: nat, key: Bytes, now: int)
    | Touch(idx: nat, key: Bytes, now: int, expires: I64)
    | Put(idx: nat, key: Bytes, value: Value, expires: I64)
    | Remove(idx: nat, key: Bytes)
    | Flush(idx: nat)
    | FlushEvery
    | Cycle(clocks: seq<int>, draws: seq<nat>)

  predicate WellFormed(op: Op) {
    match op
    case Look(idx, _, _) => idx < NUM_DATABASES
    case Touch(idx, _, _, _) => idx < NUM_DATABASES
    case Put(idx, _, _, _) => idx < NUM_DATABASES
    case Remove(idx, _) => idx < NUM_DATABASES
    case Flush(idx) => idx < NUM_DATABASES
    case FlushEvery => true
    case Cycle(clocks, draws) => |clocks| == |draws| == NUM_DATABASES
  }

  /** The latest reading an operation makes of a clock that stood at t. */
  function After(op: Op, t: int): int {
    match op
    case Look(_, _, now) => now
    case Touch(_, _, now, _) => now
    case Cycle(clocks, _) => if clocks == [] then t else clocks[|clocks| - 1]
    case _ => t
  }

  predicate Ascending(clocks: seq<int>, t: int) {
    (forall i :: 0 <= i < |clocks| ==> t <= clocks[i]) &&
    (forall i, j :: 0 <= i < j < |clocks| ==> clocks[i] <= clocks[j])
  }

  predicate InTime(op: Op, t: int) {
    match op
    case Look(_, _, now) => t <= now
    case Touch(_, _, now, _) => t <= now
    case Cycle(clocks, _) => Ascending(clocks, t)
    case _ => true
  }

  /** Every reading in the run is at least t, and no reading is before an earlier one. */
  predicate Clocked(ops: seq<Op>, t: int) {
    ops == [] || (WellFormed(ops[0]) && InTime(ops[0], t) && Clocked(ops[1..], After(ops[0], t)))
  }

  predicate Live(t: Table, key: Bytes, now: int) {
    key in t && !Stale(t[key], now)
  }

  /** The reference: a plain map. */
  function PlainStep(p: seq<Table>, op: Op): (p': seq<Table>)
    requires |p| == NUM_DATABASES && WellFormed(op)
    ensures |p'| == NUM_DATABASES
  {
    match op
    case Look(_, _, _) => p
    case Touch(idx, key, now, expires) =>
      if Live(p[idx], key, now) then p[idx := p[idx][key := p[idx][key].(expires := expires)]] else p
    case Put(idx, key, value, expires) => p[idx := p[idx][key := Entry(value, expires)]]
    case Remove(idx, key) => p[idx := p[idx] - {key}]
    case Flush(idx) => p[idx := map[]]
    case FlushEvery => NoTables()
    case Cycle(_, _) => p
  }

  function PlainReply(p: seq<Table>, op: Op): seq<Option<Entry>>
    requires |p| == NUM_DATABASES && WellFormed(op)
  {
    match op
    case Look(idx, key, now) => if Live(p[idx], key, now) then [Some(p[idx][key])] else [None]
    case Touch(idx, key, now, _) => if Live(p[idx], key, now) then [Some(p[idx][key])] else [None]
    case _ => []
  }

  function PlainReplies(p: seq<Table>, ops: seq<Op>, t: int): seq<Option<Entry>>
    requires |p| == NUM_DATABASES && Clocked(ops, t)
    decreases |ops|
  {
    if ops == [] then [] else
      PlainReply(p, ops[0]) + PlainReplies(PlainStep(p, ops[0]), ops[1..], After(ops[0], t))
  }

  /** a is b without some entries that are stale at t. */
  ghost predicate Thinned(a: Table, b: Table, t: int) {
    a.Keys <= b.Keys && forall k :: k in b ==> if k in a then a[k] == b[k] else Stale(b[k], t)
  }

  ghost predicate Refines(tables: seq<Table>, p: seq<Table>, t: int) {
    |tables| == |p| == NUM_DATABASES &&
    forall d :: 0 <= d < NUM_DATABASES ==> Thinned(tables[d], p[d], t)
  }

  lemma ExpiredThins(a: Table, b: Table, window: set<Bytes>, t: int, now: int, t': int)
    requires Thinned(a, b, t) && t <= t' && now <= t'
    ensures Thinned(Expired(a, window, now), b, t')
  {
  }

  lemma RefinesUpdate(tables: seq<Table>, p: seq<Table>, idx: nat, a: Table, b: Table, t: int)
    requires Refines(tables, p, t) && idx < NUM_DATABASES && Thinned(a, b, t)
    ensures Refines(tables[idx := a], p[idx := b], t)
  {
  }

  lemma WriteKeepsThinned(a: Table, b: Table, t: int, key: Bytes, e: Entry)
    requires Thinned(a, b, t)
    ensures Thinned(a[key := e], b[key := e], t) && Thinned(a - {key}, b - {key}, t)
  {
  }

  method StepLook(db: Database, idx: nat, key: Bytes, now: int, ghost t: int, ghost p: seq<Table>)
    returns (r: Option<Entry>)
    requires db.Valid() && idx < NUM_DATABASES && t <= now && Refines(db.tables, p, t)
    modifies db
    ensures db.Valid() && Refines(db.tables, p, now)
    ensures [r] == PlainReply(p, Look(idx, key, now))
  {
    assert Thinned(db.tables[idx], p[idx], t);
    r := db.Lookup(idx, key, now);
  }

  /** Dropping a stale or missing key. */
  lemma DropThins(a: Table, b: Table, t: int, key: Bytes, now: int)
    requires Thinned(a, b, t) && t <= now && !Live(a, key, now)
    ensures !Live(b, key, now) && Thinned(a - {key}, b, now)
  {
  }

  lemma ThinnedLater(tables: seq<Table>, p: seq<Table>, t: int, now: int)
    requires Refines(tables, p, t) && t <= now
    ensures Refines(tables, p, now)
  {
  }

  method StepTouch(db: Database, idx: nat, key: Bytes, now: int, expires: I64, ghost t: int, ghost p: seq<Table>)
    returns (r: Option<Entry>)
    requires db.Valid() && idx < NUM_DATABASES && t <= now && Refines(db.tables, p, t)
    modifies db
    ensures db.Valid() && Refines(db.tables, PlainStep(p, Touch(idx, key, now, expires)), now)
    ensures [r] == PlainReply(p, Touch(idx, key, now, expires))
  {
    ThinnedLater(db.tables, p, t, now);
    ghost var a, b := db.tables[idx], p[idx];
    assert Thinned(a, b, t);
    if Live(a, key, now) {
      ghost var e := a[key].(expires := expires);
      WriteKeepsThinned(a, b, now, key, e);
      RefinesUpdate(db.tables, p, idx, a[key := e], b[key := e], now);
    } else {
      DropThins(a, b, t, key, now);
      RefinesUpdate(db.tables, p, idx, a - {key}, b, now);
    }
    r := db.Touch(idx, key, now, expires);
  }

  method StepPut(db: Database, idx: nat, key: Bytes, value: Value, expires: I64, ghost t: int, ghost p: seq<Table>)
    requires db.Valid() && idx < NUM_DATABASES && Refines(db.tables, p, t)
    modifies db
    ensures db.Valid() && Refines(db.tables, PlainStep(p, Put(idx, key, value, expires)), t)
  {
    ghost var e := Entry(value, expires);
    WriteKeepsThinned(db.tables[idx], p[idx], t, key, e);
    RefinesUpdate(db.tables, p, idx, db.tables[idx][key := e], p[idx][key := e], t);
    db.Set(idx, key, value, expires);
  }

  method StepRemove(db: Database, idx: nat, key: Bytes, ghost t: int, ghost p: seq<Table>)
    requires db.Valid() && idx < NUM_DATABASES && Refines(db.tables, p, t)
    modifies db
    ensures db.Valid() && Refines(db.tables, PlainStep(p, Remove(idx, key)), t)
  {
    WriteKeepsThinned(db.tables[idx], p[idx], t, key, Entry(Str([]), 0));
    RefinesUpdate(db.tables, p, idx, db.tables[idx] - {key}, p[idx] - {key}, t);
    var _ := db.Delete(idx, key);
  }

  method StepCycle(db: Database, clocks: seq<int>, draws: seq<nat>, t: int, ghost p: seq<Table>)
    requires db.Valid() && |clocks| == |draws| == NUM_DATABASES && Ascending(clocks, t) && Refines(db.tables, p, t)
    modifies db
    ensures db.Valid() && Refines(db.tables, p, clocks[NUM_DATABASES - 1])
  {
    var deleted, windows := db.ActiveExpireCycle(clocks, draws);
    forall d | 0 <= d < NUM_DATABASES
      ensures Thinned(db.tables[d], p[d], clocks[NUM_DATABASES - 1])
    {
      ExpiredThins(old(db.tables)[d], p[d], windows[d], t, clocks[d], clocks[NUM_DATABASES - 1]);
    }
  }

  /** One operation keeps the refinement and answers as the reference does. */
  method Step(db: Database, op: Op, t: int, ghost p: seq<Table>) returns (replies: seq<Option<Entry>>)
    requires db.Valid() && WellFormed(op) && InTime(op, t) && Refines(db.tables, p, t)
    modifies db
    ensures db.Valid() && Refines(db.tables, PlainStep(p, op), After(op, t))
    ensures replies == PlainReply(p, op)
  {
    replies := [];
    match op {
      case Look(idx, key, now) =>
        var r := StepLook(db, idx, key, now, t, p);
        replies := [r];
      case Touch(idx, key, now, expires) =>
        var r := StepTouch(db, idx, key, now, expires, t, p);
        replies := [r];
      case Put(idx, key, value, expires) =>
        StepPut(db, idx, key, value, expires, t, p);
      case Remove(idx, key) =>
        StepRemove(db, idx, key, t, p);
      case Flush(idx) =>
        RefinesUpdate(db.tables, p, idx, map[], map[], t);
        db.FlushDb(idx);
      case FlushEvery =>
        db.FlushAll();
      case Cycle(clocks, draws) =>
        StepCycle(db, clocks, draws, t, p);
    }
  }

  /** Whole runs, for every clock that does not go back. */
  method Run(db: Database, ops: seq<Op>, t: int, ghost p: seq<Table>) returns (replies: seq<Option<Entry>>)
    requires db.Valid() && Clocked(ops, t) && Refines(db.tables, p, t)
    modifies db
    ensures db.Valid()
    ensures replies == PlainReplies(p, ops, t)
    decreases |ops|
  {
    if ops == [] {
      return [];
    }
    var first := Step(db, ops[0], t, p);
    var rest := Run(db, ops[1..], After(ops[0], t), PlainStep(p, ops[0]));
    replies := first + rest;
  }

  function WithoutCycles(ops: seq<Op>): seq<Op> {
    if ops == [] then [] else
      (if ops[0].Cycle? then [] else [ops[0]]) + WithoutCycles(ops[1..])
  }

  lemma {:induction false} EarlierClock(ops: seq<Op>, t: int, u: int)
    requires Clocked(ops, t) && u <= t
    ensures Clocked(ops, u)
  {
    if ops != [] && After(ops[0], t) == t {
      EarlierClock(ops[1..], t, After(ops[0], u));
    }
  }

  /** The reference answers the same with and without cycles. */
  lemma {:induction false} PlainWithoutCycles(p: seq<Table>, ops: seq<Op>, t: int)
    requires |p| == NUM_DATABASES && Clocked(ops, t)
    ensures Clocked(WithoutCycles(ops), t)
    ensures PlainReplies(p, WithoutCycles(ops), t) == PlainReplies(p, ops, t)
    decreases |ops|
  {
    if ops != [] {
      var t' := After(ops[0], t);
      PlainWithoutCycles(PlainStep(p, ops[0]), ops[1..], t');
      var rest := WithoutCycles(ops[1..]);
      if ops[0].Cycle? {
        assert WithoutCycles(ops) == rest;
        EarlierClock(rest, t', t);
        AnyClock(p, rest, t', t);
      } else {
        assert ([ops[0]] + rest)[1..] == rest;
      }
    }
  }

  /** The starting bound of the clock does not matter to the answers. */
  lemma {:induction false} AnyClock(p: seq<Table>, ops: seq<Op>, t: int, u: int)
    requires |p| == NUM_DATABASES && Clocked(ops, t) && Clocked(ops, u)
    ensures PlainReplies(p, ops, t) == PlainReplies(p, ops, u)
    decreases |ops|
  {
    if ops != [] {
      AnyClock(PlainStep(p, ops[0]), ops[1..], After(ops[0], t), After(ops[0], u));
    }
  }

  /**
  Cycles cannot be observed by lookups: of two databases with the same tables, one runs the operations and the other
  runs them without their cycles, and all answers are the same.
  */
  method CyclesInvisible(a: Database, b: Database, ops: seq<Op>, t: int)
    returns (with: seq<Option<Entry>>, without: seq<Option<Entry>>)
    requires a != b && a.Valid() && b.Valid() && a.tables == b.tables && Clocked(ops, t)
    modifies a, b
    ensures a.Valid() && b.Valid() && with == without
  {
    ghost var p := a.tables;
    PlainWithoutCycles(p, ops, t);
    with := Run(a, ops, t, p);
    without := Run(b, WithoutCycles(ops), t, p);
  }
}
