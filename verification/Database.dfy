/** Sixteen key spaces with deadlines and memory accounting.  The clock and the random offsets are parameters. */
module Databases {
  import opened Common
  import opened Values

  const NUM_DATABASES := 16
  const SAMPLE_WINDOW := 200

  /** A table after a scan of `window`: only its stale keys are gone. */
  function Expired(t: Table, window: set<Bytes>, now: int): Table {
    map k | k in t && !(k in window && Stale(t[k], now)) :: t[k]
  }

  lemma ExpiredStep(t: Table, window: set<Bytes>, now: int, k: Bytes)
    requires k in t && k !in window
    ensures Expired(t, window + {k}, now) ==
            if Stale(t[k], now) then Expired(t, window, now) - {k} else Expired(t, window, now)
  {
  }

  lemma ExpiredNothing(t: Table, now: int)
    ensures Expired(t, {}, now) == t
  {
  }

  /** How many keys a cycle examines in a table of this size. */
  function WindowSize(size: nat, draw: nat): nat
    requires size > 0
  {
    var offset := draw % if size < SAMPLE_WINDOW then size else SAMPLE_WINDOW;
    if size - offset < SAMPLE_WINDOW then size - offset else SAMPLE_WINDOW
  }

  /** What a cycle does to one table. */
  ghost predicate Swept(t: Table, t': Table, window: set<Bytes>, now: int, draw: nat) {
    t' == Expired(t, window, now) && window <= t.Keys && (|t| > 0 ==> |window| == WindowSize(|t|, draw))
  }

  /** A table no larger than the window, walked from its first key, is left without a stale key. */
  lemma FullSweep(t: Table, t': Table, window: set<Bytes>, now: int, draw: nat)
    requires Swept(t, t', window, now, draw) && 0 < |t| <= SAMPLE_WINDOW && draw % |t| == 0
    ensures forall k :: k in t' ==> !Stale(t'[k], now)
  {
    SubsetOfSize(window, t.Keys);
  }

  lemma SubsetOfSize(a: set<Bytes>, b: set<Bytes>)
    requires a <= b && |a| == |b|
    ensures a == b
  {
    assert b == a + (b - a);
  }

  function Keys(tables: seq<Table>): nat {
    if tables == [] then 0 else Keys(tables[..|tables| - 1]) + |tables[|tables| - 1]|
  }

  lemma {:induction false} KeysUpdate(tables: seq<Table>, i: nat, t: Table)
    requires i < |tables|
    ensures Keys(tables[i := t]) + |tables[i]| == Keys(tables) + |t|
  {
    var n := |tables| - 1;
    var tables' := tables[i := t];
    if i == n {
      assert tables'[..n] == tables[..n];
    } else {
      assert tables'[..n] == tables[..n][i := t];
      KeysUpdate(tables[..n], i, t);
    }
  }

  lemma {:induction false} EmptyTotal(tables: seq<Table>)
    requires forall i :: 0 <= i < |tables| ==> tables[i] == map[]
    ensures Total(tables) == 0 && Keys(tables) == 0
  {
    if tables != [] {
      EmptyTotal(tables[..|tables| - 1]);
    }
  }

  function NoTables(): seq<Table> {
    seq(NUM_DATABASES, _ => map[])
  }

  class Database {
    var tables: seq<Table>
    var used: nat
    var maxMemory: U64
    var totalExpired: nat

    /** The accounted memory is exact. */
    ghost predicate Valid()
      reads this
    {
      |tables| == NUM_DATABASES && used == Total(tables)
    }

    constructor ()
      ensures Valid() && tables == NoTables() && maxMemory == 0 && totalExpired == 0
    {
      tables := NoTables();
      used, maxMemory, totalExpired := 0, 0, 0;
      EmptyTotal(NoTables());
    }

    method MemAdd(n: nat)
      modifies this`used
      ensures used == old(used) + n
    {
      used := used + n;
    }

    /** Saturates at zero. */
    method MemSub(n: nat)
      modifies this`used
      ensures used == if old(used) >= n then old(used) - n else 0
    {
      if used >= n {
        used := used - n;
      } else {
        used := 0;
      }
    }

    /** Takes a present key out and its size off the account; the subtraction does not saturate. */
    method Remove(idx: nat, key: Bytes)
      requires Valid() && idx < NUM_DATABASES && key in tables[idx]
      modifies this`tables, this`used
      ensures Valid() && tables == old(tables)[idx := old(tables)[idx] - {key}]
      ensures used + EntrySizeOf(key, old(tables)[idx][key]) == old(used)
    {
      var t := tables[idx];
      var size := EntrySize(key, t[key]);
      RemoveEntry(t, key);
      TotalUpdate(tables, idx, t - {key});
      MemSub(size);
      tables := tables[idx := t - {key}];
    }

    /** The live entry, or nothing; a stale entry is dropped on the way. */
    method Lookup(idx: nat, key: Bytes, now: int) returns (r: Option<Entry>)
      requires Valid() && idx < NUM_DATABASES
      modifies this`tables, this`used, this`totalExpired
      ensures Valid()
      ensures var t := old(tables)[idx];
              if key in t && Stale(t[key], now)
              then r == None && tables == old(tables)[idx := t - {key}] && totalExpired == old(totalExpired) + 1
              else && r == (if key in t then Some(t[key]) else None)
                   && tables == old(tables) && totalExpired == old(totalExpired)
    {
      var t := tables[idx];
      if key !in t {
        return None;
      }
      if Stale(t[key], now) {
        Remove(idx, key);
        totalExpired := totalExpired + 1;
        return None;
      }
      return Some(t[key]);
    }

    /** The edit of a deadline in place, which does not touch the account. */
    method SetDeadline(idx: nat, key: Bytes, expires: I64)
      requires Valid() && idx < NUM_DATABASES && key in tables[idx]
      modifies this`tables
      ensures Valid()
      ensures var t := old(tables)[idx]; tables == old(tables)[idx := t[key := t[key].(expires := expires)]]
    {
      var t := tables[idx];
      var e := t[key].(expires := expires);
      ReplaceEntry(t, key, e);
      TotalUpdate(tables, idx, t[key := e]);
      tables := tables[idx := t[key := e]];
    }

    /** What EXPIRE and PERSIST do through the pointer a lookup gives: a live entry gets another deadline. */
    method Touch(idx: nat, key: Bytes, now: int, expires: I64) returns (r: Option<Entry>)
      requires Valid() && idx < NUM_DATABASES
      modifies this`tables, this`used, this`totalExpired
      ensures Valid()
      ensures var t := old(tables)[idx];
              if key in t && !Stale(t[key], now)
              then && r == Some(t[key]) && tables == old(tables)[idx := t[key := t[key].(expires := expires)]]
                   && used == old(used) && totalExpired == old(totalExpired)
              else && r == None && tables == old(tables)[idx := t - {key}]
                   && totalExpired == old(totalExpired) + if key in t then 1 else 0
    {
      ghost var t := tables[idx];
      assert key !in t ==> t - {key} == t;
      r := Lookup(idx, key, now);
      if r.Some? {
        SetDeadline(idx, key, expires);
      }
    }

    method Set(idx: nat, key: Bytes, value: Value, expires: I64)
      requires Valid() && idx < NUM_DATABASES
      modifies this`tables, this`used
      ensures Valid() && tables == old(tables)[idx := old(tables)[idx][key := Entry(value, expires)]]
    {
      var t := tables[idx];
      var e := Entry(value, expires);
      var size := EntrySize(key, e);
      if key !in t {
        AddEntry(t, key, e);
        TotalUpdate(tables, idx, t[key := e]);
        tables := tables[idx := t[key := e]];
        MemAdd(size);
      } else {
        ReplaceEntry(t, key, e);
        TotalUpdate(tables, idx, t[key := e]);
        var was := EntrySize(key, t[key]);
        TotalAtLeast(tables, idx, key);
        MemSub(was);
        tables := tables[idx := t[key := e]];
        MemAdd(size);
      }
    }

    method Delete(idx: nat, key: Bytes) returns (found: bool)
      requires Valid() && idx < NUM_DATABASES
      modifies this`tables, this`used
      ensures Valid() && tables == old(tables)[idx := old(tables)[idx] - {key}]
      ensures found == (key in old(tables)[idx])
    {
      if key !in tables[idx] {
        assert tables[idx] - {key} == tables[idx];
        return false;
      }
      Remove(idx, key);
      return true;
    }

    /** Takes every entry's size off the account, in any order, then clears the table. */
    method FlushDb(idx: nat)
      requires Valid() && idx < NUM_DATABASES
      modifies this`tables, this`used
      ensures Valid() && tables == old(tables)[idx := map[]]
    {
      var t := tables[idx];
      var rest := t.Keys;
      TotalUpdate(tables, idx, map[]);
      assert t - (t.Keys - rest) == t;
      while rest != {}
        invariant rest <= t.Keys && tables == old(tables)
        invariant used == Total(tables[idx := map[]]) + Sum(t - (t.Keys - rest), EntrySizeOf)
        decreases |rest|
      {
        var k :| k in rest;
        SumStep(t, EntrySizeOf, rest, k);
        var size := EntrySize(k, t[k]);
        MemSub(size);
        rest := rest - {k};
      }
      assert t - t.Keys == map[];
      tables := tables[idx := map[]];
    }

    method FlushAll()
      requires Valid()
      modifies this`tables, this`used
      ensures Valid() && tables == NoTables() && used == 0
    {
      for i := 0 to NUM_DATABASES
        invariant Valid() && forall j :: 0 <= j < i ==> tables[j] == map[]
      {
        FlushDb(i);
      }
      EmptyTotal(tables);
      assert tables == NoTables();
    }

    /** One key of a scan. */
    method ExpireKey(d: nat, k: Bytes, now: int, ghost t: Table, ghost window: set<Bytes>) returns (n: nat)
      requires Valid() && d < NUM_DATABASES && tables[d] == Expired(t, window, now) && k in t && k !in window
      modifies this`tables, this`used, this`totalExpired
      ensures Valid() && tables == old(tables)[d := Expired(t, window + {k}, now)]
      ensures n == |old(tables)[d]| - |tables[d]| == totalExpired - old(totalExpired)
    {
      ExpiredStep(t, window, now, k);
      n := 0;
      assert tables == tables[d := tables[d]];
      if Stale(tables[d][k], now) {
        RemovedCount(tables[d], k);
        Remove(d, k);
        totalExpired := totalExpired + 1;
        n := 1;
      }
    }

    /** The walk over the keys left after the skip. */
    method Scan(d: nat, now: int, keys: set<Bytes>) returns (deleted: nat, ghost window: set<Bytes>)
      requires Valid() && d < NUM_DATABASES && keys <= tables[d].Keys
      modifies this`tables, this`used, this`totalExpired
      ensures Valid() && tables == old(tables)[d := Expired(old(tables)[d], window, now)]
      ensures deleted == |old(tables)[d]| - |tables[d]| == totalExpired - old(totalExpired)
      ensures window <= keys && |window| == if |keys| < SAMPLE_WINDOW then |keys| else SAMPLE_WINDOW
    {
      ghost var t := tables[d];
      var rest, scanned := keys, 0;
      deleted, window := 0, {};
      ExpiredNothing(t, now);
      assert tables == tables[d := t];
      while rest != {} && scanned < SAMPLE_WINDOW
        invariant Valid() && rest <= keys && window == keys - rest
        invariant scanned == |window| <= SAMPLE_WINDOW && |rest| + scanned == |keys|
        invariant tables == old(tables)[d := Expired(t, window, now)]
        invariant deleted == |t| - |tables[d]| == totalExpired - old(totalExpired)
        decreases |rest|
      {
        var k :| k in rest;
        scanned := scanned + 1;
        rest := rest - {k};
        var n := ExpireKey(d, k, now, t, window);
        window := window + {k};
        deleted := deleted + n;
      }
    }

    /**
    One table of an expire cycle.  The walk skips `offset` keys and examines at most SAMPLE_WINDOW of the rest, in
    the table's own order, whatever it is; `window` are the keys it examined.
    */
    method ExpireTable(d: nat, now: int, draw: nat) returns (deleted: nat, ghost window: set<Bytes>)
      requires Valid() && d < NUM_DATABASES
      modifies this`tables, this`used, this`totalExpired
      ensures Valid() && tables == old(tables)[d := tables[d]]
      ensures Swept(old(tables)[d], tables[d], window, now, draw)
      ensures deleted == |old(tables)[d]| - |tables[d]| == totalExpired - old(totalExpired)
    {
      if |tables[d]| == 0 {
        ExpiredNothing(tables[d], now);
        deleted, window := 0, {};
        return;
      }
      var size := |tables[d]|;
      var offset := draw % if size < SAMPLE_WINDOW then size else SAMPLE_WINDOW;
      var rest := Advance(tables[d].Keys, offset);
      deleted, window := Scan(d, now, rest);
    }

    /** Every table in turn, each with its own clock reading and random draw. */
    method ActiveExpireCycle(now: seq<int>, draw: seq<nat>) returns (deleted: nat, ghost windows: seq<set<Bytes>>)
      requires Valid() && |now| == |draw| == NUM_DATABASES
      modifies this`tables, this`used, this`totalExpired
      ensures Valid() && |windows| == NUM_DATABASES
      ensures forall d :: 0 <= d < NUM_DATABASES ==> Swept(old(tables)[d], tables[d], windows[d], now[d], draw[d])
      ensures deleted == Keys(old(tables)) - Keys(tables) == totalExpired - old(totalExpired)
    {
      deleted, windows := 0, [];
      for d := 0 to NUM_DATABASES
        invariant Valid() && |windows| == d
        invariant forall j :: 0 <= j < d ==> Swept(old(tables)[j], tables[j], windows[j], now[j], draw[j])
        invariant forall j :: d <= j < NUM_DATABASES ==> tables[j] == old(tables)[j]
        invariant deleted == Keys(old(tables)) - Keys(tables) == totalExpired - old(totalExpired)
      {
        ghost var before := tables;
        var n, window := ExpireTable(d, now[d], draw[d]);
        KeysUpdate(before, d, tables[d]);
        deleted := deleted + n;
        windows := windows + [window];
      }
    }
  }

  /** Drops n keys from the front of an iteration in any order. */
  method Advance(keys: set<Bytes>, n: nat) returns (rest: set<Bytes>)
    requires n <= |keys|
    ensures rest <= keys && |rest| == |keys| - n
  {
    rest := keys;
    for i := 0 to n
      invariant rest <= keys && |rest| == |keys| - i
    {
      var k :| k in rest;
      rest := rest - {k};
    }
  }

  lemma RemovedCount(t: Table, k: Bytes)
    requires k in t
    ensures |t - {k}| == |t| - 1
  {
    assert (t - {k}).Keys == t.Keys - {k};
  }

  lemma ReplaceEntry(t: Table, k: Bytes, e: Entry)
    requires k in t
    ensures TableSize(t[k := e]) + EntrySizeOf(k, t[k]) == TableSize(t) + EntrySizeOf(k, e)
  {
    RemoveEntry(t, k);
    RemoveEntry(t[k := e], k);
    assert t[k := e] - {k} == t - {k};
  }

  /** No entry is larger than the whole account. */
  lemma TotalAtLeast(tables: seq<Table>, idx: nat, key: Bytes)
    requires idx < |tables| && key in tables[idx]
    ensures Total(tables) >= EntrySizeOf(key, tables[idx][key])
  {
    RemoveEntry(tables[idx], key);
    TotalUpdate(tables, idx, tables[idx] - {key});
  }
}
