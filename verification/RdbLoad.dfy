/** Loading a snapshot: on any bytes whatever, the database is replaced whole or left alone. */
module RdbLoad {
  import opened Common
  import opened ZSetSpec
  import opened Values
  import opened Databases
  import opened Crc
  import opened RdbFormat
  import opened Snapshots
  import opened Rdb

  /** The result of reading a value against what stands in the file. */
  ghost predicate Valued(g: Got<Payload>, ok: bool, pos: nat, v: Value) {
    ok == g.Got? && (ok ==> pos == g.pos && Reads(g.value, v))
  }

  method ReadHashValue(r: Reader) returns (v: Value, ghost work: nat)
    requires r.Valid() && r.ok
    modifies r
    ensures r.Valid() && Valued(GetPayload(r.buf, old(r.pos), 1), r.ok, r.pos, v)
    ensures Paid(work, old(r.pos), r.ok, r.pos) && old(r.pos) <= r.pos
  {
    var n := r.ReadWord(4);
    work := 0;
    var h: map<Bytes, Bytes> := map[];
    if r.ok {
      ghost var ps;
      h, ps, work := ReadHash(r, n);
    }
    v := Hash(h);
  }

  method ReadListValue(r: Reader) returns (v: Value, ghost work: nat)
    requires r.Valid() && r.ok
    modifies r
    ensures r.Valid() && Valued(GetPayload(r.buf, old(r.pos), 2), r.ok, r.pos, v)
    ensures Paid(work, old(r.pos), r.ok, r.pos) && old(r.pos) <= r.pos
  {
    var n := r.ReadWord(4);
    work := 0;
    var l: seq<Bytes> := [];
    if r.ok {
      l, work := ReadList(r, n);
    }
    v := List(l);
  }

  method ReadSetValue(r: Reader) returns (v: Value, ghost work: nat)
    requires r.Valid() && r.ok
    modifies r
    ensures r.Valid() && Valued(GetPayload(r.buf, old(r.pos), 3), r.ok, r.pos, v)
    ensures Paid(work, old(r.pos), r.ok, r.pos) && old(r.pos) <= r.pos
  {
    var n := r.ReadWord(4);
    work := 0;
    var m: set<Bytes> := {};
    if r.ok {
      ghost var ms;
      m, ms, work := ReadSet(r, n);
    }
    v := Set(m);
  }

  method ReadZSetValue(r: Reader) returns (v: Value, ghost work: nat)
    requires r.Valid() && r.ok
    modifies r
    ensures r.Valid() && Valued(GetPayload(r.buf, old(r.pos), 4), r.ok, r.pos, v)
    ensures Paid(work, old(r.pos), r.ok, r.pos) && old(r.pos) <= r.pos
  {
    var n := r.ReadWord(4);
    work := 0;
    var dict: Dict, sorted := map[], [];
    if r.ok {
      ghost var ps;
      dict, sorted, ps, work := ReadZSet(r, n);
    }
    v := ZSet(dict, sorted);
  }

  method ReadText(r: Reader) returns (v: Value, ghost work: nat)
    requires r.Valid() && r.ok
    modifies r
    ensures r.Valid() && Valued(GetPayload(r.buf, old(r.pos), 0), r.ok, r.pos, v)
    ensures Paid(work, old(r.pos), r.ok, r.pos) && old(r.pos) <= r.pos
  {
    var s := r.ReadStr();
    v, work := Str(s), 0;
  }

  lemma PayloadErrors(b: Bytes, p: nat, tag: Byte)
    ensures tag > 4 ==> GetPayload(b, p, tag) == Fail(UnknownType)
    ensures tag <= 4 && GetPayload(b, p, tag).Fail? ==> GetPayload(b, p, tag) == Fail(TruncatedValue)
  {
  }

  method ReadValue(r: Reader, tag: Byte) returns (err: Option<LoadError>, v: Value, ghost work: nat)
    requires r.Valid() && r.ok
    modifies r
    ensures var g := GetPayload(r.buf, old(r.pos), tag);
            r.Valid() && Valued(g, err == None, r.pos, v) && (err == None ==> r.ok) && (g.Fail? ==> err == Some(g.why))
    ensures Paid(work, old(r.pos), err == None, r.pos) && old(r.pos) <= r.pos
  {
    PayloadErrors(r.buf, r.pos, tag);
    v, work := Str([]), 0;
    if tag == 0 {
      v, work := ReadText(r);
    } else if tag == 1 {
      v, work := ReadHashValue(r);
    } else if tag == 2 {
      v, work := ReadListValue(r);
    } else if tag == 3 {
      v, work := ReadSetValue(r);
    } else if tag == 4 {
      v, work := ReadZSetValue(r);
    } else {
      return Some(UnknownType), v, work;
    }
    err := if r.ok then None else Some(TruncatedValue);
  }

  /** One entry of a table. */
  method ReadRec(r: Reader) returns (err: Option<LoadError>, key: Bytes, e: Entry, ghost work: nat)
    requires r.Valid() && r.ok
    modifies r
    ensures var g := GetRec(r.buf, old(r.pos));
            r.Valid() && match g
              case Got(rec, q) => err == None && r.ok && r.pos == q && ReadsItem(rec, (key, e))
              case Fail(why) => err == Some(why)
    ensures Paid(work, old(r.pos), err == None, r.pos) && old(r.pos) <= r.pos
  {
    e, work := Entry(Str([]), 0), 1;
    var tag := r.U8();
    key := r.ReadStr();
    var expires := r.ReadU64();
    if !r.ok {
      err := Some(TruncatedEntry);
      return;
    }
    var v;
    ghost var more;
    err, v, more := ReadValue(r, tag);
    work := work + more;
    e := Entry(v, if expires != 0 then Signed(expires) else 0);
  }

  lemma StoredSnoc(t: Table, recs: seq<Rec>, items: seq<Item>, rec: Rec, it: Item)
    requires ReadsItems(recs, items) && ReadsItem(rec, it)
    ensures ReadsItems(recs + [rec], items + [it]) && StoredIn(t, items + [it]) == StoredIn(t, items)[it.0 := it.1]
  {
    assert (items + [it])[..|items|] == items;
  }

  /** The table so far, as the entries read so far are stored in t. */
  ghost predicate Storing(recs: seq<Rec>, items: seq<Item>, t: Table, now: Table) {
    ReadsItems(recs, items) && now == StoredIn(t, items)
  }

  /** The reading of many items from b, under another name: the loops below need not know how an item is read. */
  ghost predicate ManyOf<T>(many: Many<T>, get: (Bytes, nat) -> Got<T>, b: Bytes) {
    forall p: nat, k: nat {:trigger GetMany(get, b, p, k)} :: many(p, k) == GetMany(get, b, p, k)
  }

  type Many<T> = (nat, nat) -> Got<seq<T>>

  lemma FirstItem<T>(many: Many<T>, get: (Bytes, nat) -> Got<T>, b: Bytes, p: nat, n: nat)
    requires ManyOf(many, get, b)
    ensures many(p, n) == Appended([], many(p, n))
  {
    Start(get, b, p, n);
  }

  lemma NextItem<T>(many: Many<T>, get: (Bytes, nat) -> Got<T>, b: Bytes, start: nat, n: nat,
                    acc: seq<T>, pos: nat, k: nat, g: Got<T>)
    requires ManyOf(many, get, b) && k > 0 && many(start, n) == Appended(acc, many(pos, k)) && g == get(b, pos)
    ensures g.Fail? ==> many(start, n) == Fail(g.why)
    ensures g.Got? ==> many(start, n) == Appended(acc + [g.value], many(g.pos, k - 1))
  {
    Round(get, b, start, n, acc, pos, k, g);
  }

  lemma LastItem<T>(many: Many<T>, get: (Bytes, nat) -> Got<T>, b: Bytes, start: nat, n: nat, acc: seq<T>, pos: nat)
    requires ManyOf(many, get, b) && many(start, n) == Appended(acc, many(pos, 0))
    ensures many(start, n) == Got(acc, pos)
  {
    Finish(get, b, start, n, acc, pos);
  }

  /** Where the loop over the entries stands with k rounds to go: what is read, what is stored, what it has cost. */
  ghost predicate RecsAt(many: Many<Rec>, start: nat, n: nat, recs: seq<Rec>, items: seq<Item>,
                         t: Table, now: Table, pos: nat, k: nat, work: nat)
  {
    many(start, n) == Appended(recs, many(pos, k)) && Storing(recs, items, t, now) && Paid(work, start, true, pos)
  }

  lemma RecsMore(many: Many<Rec>, b: Bytes, start: nat, n: nat, recs: seq<Rec>, items: seq<Item>,
                 t: Table, now: Table, pos: nat, k: nat, work: nat, rec: Rec, it: Item, q: nat, more: nat)
    requires ManyOf(many, GetRec, b) && k > 0 && RecsAt(many, start, n, recs, items, t, now, pos, k, work)
    requires GetRec(b, pos) == Got(rec, q) && ReadsItem(rec, it) && Paid(more, pos, true, q)
    ensures RecsAt(many, start, n, recs + [rec], items + [it], t, now[it.0 := it.1], q, k - 1, work + more)
  {
    NextItem(many, GetRec, b, start, n, recs, pos, k, GetRec(b, pos));
    StoredSnoc(t, recs, items, rec, it);
  }

  lemma RecsFail(many: Many<Rec>, b: Bytes, start: nat, n: nat, recs: seq<Rec>, items: seq<Item>,
                 t: Table, now: Table, pos: nat, k: nat, work: nat, q: nat, more: nat)
    requires ManyOf(many, GetRec, b) && k > 0 && RecsAt(many, start, n, recs, items, t, now, pos, k, work)
    requires GetRec(b, pos).Fail? && Paid(more, pos, false, q)
    ensures many(start, n) == Fail(GetRec(b, pos).why) && Paid(work + more, start, false, q)
  {
    NextItem(many, GetRec, b, start, n, recs, pos, k, GetRec(b, pos));
  }

  /** One round of the entry loop: the entry read is stored at once. */
  method RecRound(r: Reader, target: Database, idx: nat, ghost many: Many<Rec>, ghost start: nat, ghost n: nat,
                  ghost recs: seq<Rec>, ghost items: seq<Item>, ghost t: Table, ghost k: nat, ghost work: nat)
    returns (err: Option<LoadError>, ghost recs': seq<Rec>, ghost items': seq<Item>, ghost k': nat, ghost work': nat)
    requires r.Valid() && r.ok && target.Valid() && idx < NUM_DATABASES && k > 0
    requires ManyOf(many, GetRec, r.buf) && RecsAt(many, start, n, recs, items, t, target.tables[idx], r.pos, k, work)
    modifies r, target
    ensures target.totalExpired == old(target.totalExpired) && r.Valid() && target.Valid() && k' == k - 1
    ensures old(r.pos) <= r.pos && target.tables == old(target.tables)[idx := target.tables[idx]]
    ensures err == None ==> r.ok && RecsAt(many, start, n, recs', items', t, target.tables[idx], r.pos, k', work')
    ensures err.Some? ==> many(start, n) == Fail(err.value) && Paid(work', start, false, r.pos)
  {
    ghost var g, pos, now := GetRec(r.buf, r.pos), r.pos, target.tables[idx];
    var key, e;
    ghost var more;
    err, key, e, more := ReadRec(r);
    recs', items', k', work' := recs, items, k - 1, work + more;
    if err == None {
      RecsMore(many, r.buf, start, n, recs, items, t, now, pos, k, work, g.value, (key, e), r.pos, more);
      recs', items' := recs + [g.value], items + [(key, e)];
      target.Set(idx, key, e.value, e.expires);
    } else {
      RecsFail(many, r.buf, start, n, recs, items, t, now, pos, k, work, r.pos, more);
    }
  }

  method EntryLoop(r: Reader, target: Database, idx: nat, n: nat, ghost many: Many<Rec>)
    returns (err: Option<LoadError>, ghost recs: seq<Rec>, ghost items: seq<Item>, ghost work: nat)
    requires r.Valid() && r.ok && target.Valid() && idx < NUM_DATABASES && ManyOf(many, GetRec, r.buf)
    modifies r, target
    ensures target.totalExpired == old(target.totalExpired)
    ensures r.Valid() && target.Valid() && old(r.pos) <= r.pos && Paid(work, old(r.pos), err == None, r.pos)
    ensures var g := many(old(r.pos), n);
            if g.Got? then err == None && r.ok && g == Got(recs, r.pos) else err == Some(g.why)
    ensures err == None ==> Storing(recs, items, old(target.tables)[idx], target.tables[idx])
    ensures target.tables == old(target.tables)[idx := target.tables[idx]]
  {
    recs, items, work := [], [], 0;
    ghost var start, t, left := r.pos, target.tables[idx], n;
    FirstItem(many, GetRec, r.buf, start, n);
    var j := 0;
    while j < n
      invariant r.Valid() && r.ok && target.Valid() && j + left == n && start <= r.pos
      invariant RecsAt(many, start, n, recs, items, t, target.tables[idx], r.pos, left, work)
      invariant target.tables == old(target.tables)[idx := target.tables[idx]]
      invariant target.totalExpired == old(target.totalExpired)
    {
      err, recs, items, left, work := RecRound(r, target, idx, many, start, n, recs, items, t, left, work);
      if err != None {
        return;
      }
      j := j + 1;
    }
    LastItem(many, GetRec, r.buf, start, n, recs, r.pos);
    err := None;
  }

  method ReadEntries(r: Reader, target: Database, idx: nat, n: nat)
    returns (err: Option<LoadError>, ghost recs: seq<Rec>, ghost items: seq<Item>, ghost work: nat)
    requires r.Valid() && r.ok && target.Valid() && idx < NUM_DATABASES
    modifies r, target
    ensures target.totalExpired == old(target.totalExpired)
    ensures r.Valid() && target.Valid() && old(r.pos) <= r.pos && Paid(work, old(r.pos), err == None, r.pos)
    ensures var g := GetMany(GetRec, r.buf, old(r.pos), n);
            if g.Got? then err == None && r.ok && g == Got(recs, r.pos) else err == Some(g.why)
    ensures err == None ==> Storing(recs, items, old(target.tables)[idx], target.tables[idx])
    ensures target.tables == old(target.tables)[idx := target.tables[idx]]
  {
    err, recs, items, work := EntryLoop(r, target, idx, n, (p: nat, k: nat) => GetMany(GetRec, r.buf, p, k));
  }

  lemma BadSlot(b: Bytes, p: nat)
    requires p >= |b| || GetNum(b, p + 1, 4).Fail? || b[p] >= NUM_SLOTS
    ensures GetSlot(b, p) == Fail(BadIndex)
  {
  }

  lemma GoodSlot(b: Bytes, p: nat, n: nat, q: nat, many: Got<seq<Rec>>)
    requires p < |b| && GetNum(b, p + 1, 4) == Got(n, q) && b[p] < NUM_SLOTS && many == GetMany(GetRec, b, q, n)
    ensures GetSlot(b, p) == if many.Got? then Got(Slot(b[p], many.value), many.pos) else Fail(many.why)
  {
  }

  /** One table. */
  method ReadSlot(r: Reader, target: Database)
    returns (err: Option<LoadError>, ghost slot: Slot, ghost u: StoredSlot, ghost work: nat)
    requires r.Valid() && r.ok && target.Valid()
    modifies r, target
    ensures target.totalExpired == old(target.totalExpired)
    ensures r.Valid() && target.Valid() && old(r.pos) <= r.pos && Paid(work, old(r.pos), err == None, r.pos)
    ensures var g := GetSlot(r.buf, old(r.pos));
            if g.Got? then err == None && r.ok && g == Got(slot, r.pos) && slot.idx < NUM_SLOTS else err == Some(g.why)
    ensures err == None ==> u.idx == slot.idx && ReadsItems(slot.recs, u.items)
    ensures err == None ==> target.tables == old(target.tables)[u.idx := StoredIn(old(target.tables)[u.idx], u.items)]
  {
    slot, u, work := Slot(0, []), StoredSlot(0, []), 1;
    var idx := r.U8();
    var count := r.ReadWord(4);
    if !r.ok || idx >= NUM_DATABASES {
      BadSlot(r.buf, old(r.pos));
      return Some(BadIndex), slot, u, work;
    }
    GoodSlot(r.buf, old(r.pos), count, r.pos, GetMany(GetRec, r.buf, r.pos, count));
    ghost var recs, items, more;
    err, recs, items, more := ReadEntries(r, target, idx, count);
    slot, u, work := Slot(idx, recs), StoredSlot(idx, items), work + more;
  }

  ghost predicate Indexed(slots: seq<Slot>) {
    forall s :: s in slots ==> s.idx < NUM_SLOTS
  }

  /** The tables so far, as the slots read so far are stored. */
  ghost predicate Restoring(slots: seq<Slot>, us: seq<StoredSlot>, tables: seq<Table>) {
    Indexed(slots) && ReadsSlots(slots, us) && (forall u :: u in us ==> u.idx < NUM_SLOTS) && tables == StoredAll(us)
  }

  lemma RestoringMore(slots: seq<Slot>, us: seq<StoredSlot>, tables: seq<Table>, s: Slot, u: StoredSlot,
                      now: seq<Table>, slots': seq<Slot>, us': seq<StoredSlot>)
    requires Restoring(slots, us, tables) && s.idx == u.idx < NUM_SLOTS && ReadsItems(s.recs, u.items)
    requires |tables| == NUM_DATABASES && now == tables[u.idx := StoredIn(tables[u.idx], u.items)]
    requires slots' == slots + [s] && us' == us + [u]
    ensures Restoring(slots', us', now)
  {
    assert us'[..|us|] == us;
  }

  /** Where the loop over the tables stands with k rounds to go: what is read, what is stored, what it has cost. */
  ghost predicate SlotsAt(many: Many<Slot>, start: nat, n: nat, slots: seq<Slot>, us: seq<StoredSlot>,
                          tables: seq<Table>, pos: nat, k: nat, work: nat)
  {
    many(start, n) == Appended(slots, many(pos, k)) && Restoring(slots, us, tables) && Paid(work, start, true, pos)
  }

  lemma SlotsMore(many: Many<Slot>, b: Bytes, start: nat, n: nat, slots: seq<Slot>, us: seq<StoredSlot>,
                  tables: seq<Table>, pos: nat, k: nat, work: nat,
                  s: Slot, u: StoredSlot, now: seq<Table>, q: nat, more: nat,
                  slots': seq<Slot>, us': seq<StoredSlot>, k': nat, work': nat)
    requires ManyOf(many, GetSlot, b) && k > 0 && SlotsAt(many, start, n, slots, us, tables, pos, k, work)
    requires GetSlot(b, pos) == Got(s, q) && s.idx == u.idx < NUM_SLOTS && ReadsItems(s.recs, u.items)
    requires |tables| == NUM_DATABASES && now == tables[u.idx := StoredIn(tables[u.idx], u.items)]
    requires Paid(more, pos, true, q)
    requires slots' == slots + [s] && us' == us + [u] && k' == k - 1 && work' == work + more
    ensures SlotsAt(many, start, n, slots', us', now, q, k', work')
  {
    NextItem(many, GetSlot, b, start, n, slots, pos, k, GetSlot(b, pos));
    RestoringMore(slots, us, tables, s, u, now, slots', us');
  }

  lemma SlotsFail(many: Many<Slot>, b: Bytes, start: nat, n: nat, slots: seq<Slot>, us: seq<StoredSlot>,
                  tables: seq<Table>, pos: nat, k: nat, work: nat, q: nat, more: nat)
    requires ManyOf(many, GetSlot, b) && k > 0 && SlotsAt(many, start, n, slots, us, tables, pos, k, work)
    requires GetSlot(b, pos).Fail? && Paid(more, pos, false, q)
    ensures many(start, n) == Fail(GetSlot(b, pos).why) && Paid(work + more, start, false, q)
  {
    NextItem(many, GetSlot, b, start, n, slots, pos, k, GetSlot(b, pos));
  }

  method SlotRound(r: Reader, target: Database, ghost many: Many<Slot>, ghost start: nat, ghost n: nat,
                   ghost slots: seq<Slot>, ghost us: seq<StoredSlot>, ghost k: nat, ghost work: nat)
    returns (err: Option<LoadError>, ghost slots': seq<Slot>, ghost us': seq<StoredSlot>, ghost k': nat,
             ghost work': nat)
    requires r.Valid() && r.ok && target.Valid() && ManyOf(many, GetSlot, r.buf) && k > 0
    requires SlotsAt(many, start, n, slots, us, target.tables, r.pos, k, work)
    modifies r, target
    ensures target.totalExpired == old(target.totalExpired) && r.Valid() && target.Valid() && k' == k - 1
    ensures err == None ==> r.ok && SlotsAt(many, start, n, slots', us', target.tables, r.pos, k', work')
    ensures err.Some? ==> many(start, n) == Fail(err.value) && Paid(work', start, false, r.pos)
  {
    ghost var pos, tables := r.pos, target.tables;
    ghost var s, u, more;
    err, s, u, more := ReadSlot(r, target);
    slots', us', k', work' := slots + [s], us + [u], k - 1, work + more;
    ghost var now, q := target.tables, r.pos;
    if err == None {
      SlotsMore(many, r.buf, start, n, slots, us, tables, pos, k, work, s, u, now, q, more, slots', us', k', work');
    } else {
      SlotsFail(many, r.buf, start, n, slots, us, tables, pos, k, work, r.pos, more);
    }
  }

  method SlotLoop(r: Reader, target: Database, n: nat, ghost many: Many<Slot>)
    returns (err: Option<LoadError>, ghost slots: seq<Slot>, ghost us: seq<StoredSlot>, ghost work: nat)
    requires r.Valid() && r.ok && target.Valid() && target.tables == NoTables() && ManyOf(many, GetSlot, r.buf)
    modifies r, target
    ensures target.totalExpired == old(target.totalExpired)
    ensures r.Valid() && target.Valid() && Paid(work, old(r.pos), err == None, r.pos)
    ensures var g := many(old(r.pos), n);
            if g.Got? then err == None && g == Got(slots, r.pos) else err == Some(g.why)
    ensures err == None ==> Restoring(slots, us, target.tables)
  {
    slots, us, work := [], [], 0;
    ghost var start, left := r.pos, n;
    FirstItem(many, GetSlot, r.buf, start, n);
    var d := 0;
    while d < n
      invariant r.Valid() && r.ok && target.Valid() && target.totalExpired == old(target.totalExpired) && d + left == n
      invariant SlotsAt(many, start, n, slots, us, target.tables, r.pos, left, work)
    {
      err, slots, us, left, work := SlotRound(r, target, many, start, n, slots, us, left, work);
      if err != None {
        return;
      }
      d := d + 1;
    }
    LastItem(many, GetSlot, r.buf, start, n, slots, r.pos);
    err := None;
  }

  method ReadSlots(r: Reader, target: Database, n: nat)
    returns (err: Option<LoadError>, ghost slots: seq<Slot>, ghost us: seq<StoredSlot>, ghost work: nat)
    requires r.Valid() && r.ok && target.Valid() && target.tables == NoTables()
    modifies r, target
    ensures target.totalExpired == old(target.totalExpired)
    ensures r.Valid() && target.Valid() && Paid(work, old(r.pos), err == None, r.pos)
    ensures var g := GetMany(GetSlot, r.buf, old(r.pos), n);
            if g.Got? then err == None && g == Got(slots, r.pos) else err == Some(g.why)
    ensures err == None ==> Restoring(slots, us, target.tables)
  {
    err, slots, us, work := SlotLoop(r, target, n, (p: nat, k: nat) => GetMany(GetSlot, r.buf, p, k));
  }

  lemma ChecksPass(data: Bytes, many: Got<seq<Slot>>)
    requires HasMagic(data) && many == GetMany(GetSlot, data, |MAGIC| + 1, data[|MAGIC|])
    ensures Scanned(data) == if CrcOk(data) then many else Fail(CrcMismatch)
  {
  }

  /** The two checks before anything is read. */
  method CheckFile(data: Bytes) returns (err: Option<LoadError>)
    ensures err == None ==> |data| > |MAGIC| && Scanned(data) == GetMany(GetSlot, data, |MAGIC| + 1, data[|MAGIC|])
    ensures err.Some? ==> Scanned(data) == Fail(err.value)
  {
    if !HasMagic(data) {
      return Some(BadMagic);
    }
    ChecksPass(data, GetMany(GetSlot, data, |MAGIC| + 1, data[|MAGIC|]));
    var body := |data| - 4;
    var stored := Pack(data[body..]);
    var crc := ComputeCrc32(data[..body]);
    if crc != stored {
      return Some(CrcMismatch);
    }
    return None;
  }

  /** Reads into a database of its own. */
  method ReadFile(data: Bytes, start: nat)
    returns (err: Option<LoadError>, target: Database, ghost slots: seq<Slot>, ghost work: nat)
    requires start < |data|
    ensures fresh(target) && target.Valid() && target.totalExpired == 0 && 4 * work <= |data| + 4
    ensures var g := GetMany(GetSlot, data, start + 1, data[start]);
            if g.Got? then err == None && g.value == slots else err == Some(g.why)
    ensures err == None ==> Indexed(slots) && MayLoad(slots, target.tables)
  {
    var r := new Reader(data, start);
    var n := r.U8();
    target := new Database();
    ghost var us;
    err, slots, us, work := ReadSlots(r, target, n);
  }

  method Replace(db: Database, target: Database)
    requires db.Valid() && target.Valid() && db != target
    modifies db
    ensures db.Valid() && db.tables == target.tables && db.totalExpired == target.totalExpired
    ensures db.maxMemory == old(db.maxMemory)
  {
    var keep := db.maxMemory;
    db.FlushAll();
    db.tables, db.used := target.tables, target.used;
    db.maxMemory, db.totalExpired := target.maxMemory, target.totalExpired;
    db.maxMemory := keep;
  }

  /** Without NaN scores the outcome is the one the load function gives. */
  lemma LoadedAs(data: Bytes, slots: seq<Slot>, tables: seq<Table>)
    requires Scanned(data).Got? && Scanned(data).value == slots && Indexed(slots)
    requires MayLoad(slots, tables) && Clean(slots)
    ensures Load(data) == Loaded(tables)
  {
    var us: seq<StoredSlot> :|
      ReadsSlots(slots, us) && (forall u :: u in us ==> u.idx < NUM_SLOTS) && tables == StoredAll(us);
    LoadedOnce(slots, us);
  }

  /**
  The whole load.  A refusal leaves every field of the database as it was; otherwise its tables are the loaded ones,
  for whatever levels were drawn, the account is exact again (Valid), the memory limit is kept and the expiry counter
  starts over.  Over all its loops the loader does at most one round for every four bytes of the file,
  and one more.
  */
  method LoadFromBytes(db: Database, data: Bytes) returns (err: Option<LoadError>, ghost work: nat)
    requires db.Valid()
    modifies db
    ensures db.Valid() && db.maxMemory == old(db.maxMemory) && 4 * work <= |data| + 4
    ensures match Scanned(data)
            case Fail(why) => err == Some(why) && unchanged(db)
            case Got(slots, _) =>
              err == None && db.totalExpired == 0 && MayLoad(slots, db.tables) &&
              (Clean(slots) ==> Load(data) == Loaded(db.tables))
  {
    work := 0;
    err := CheckFile(data);
    if err != None {
      return;
    }
    var target;
    ghost var slots;
    err, target, slots, work := ReadFile(data, |MAGIC|);
    if err != None {
      return;
    }
    Replace(db, target);
    if Clean(slots) {
      LoadedAs(data, slots, db.tables);
    }
  }

  /** Saving one database and loading the bytes into another makes their tables equal. */
  method SaveThenLoad(src: Database, dst: Database)
    requires src.Valid() && dst.Valid() && src != dst && Storable(src.tables)
    modifies dst
    ensures dst.Valid() && dst.tables == src.tables && dst.used == src.used && dst.maxMemory == old(dst.maxMemory)
  {
    var bytes, slots := Serialize(src.tables);
    SnapshotClean(slots, src.tables, NUM_DATABASES);
    SnapshotScanned(slots, src.tables);
    var _, _ := LoadFromBytes(dst, bytes);
  }
}
