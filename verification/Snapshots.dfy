/**
What a snapshot means.  Writing may take every hash table in any order; reading rebuilds the tables entry by entry,
and gives back exactly what was written.
*/
module Snapshots {
  import opened Common
  import opened Float
  import opened SortedKeys
  import opened ZSetSpec
  import opened Values
  import opened Databases
  import opened RdbFormat
  import opened RdbCodec

  // ---- what the loader makes of the records ----

  /** `emplace`: the first of equal keys wins. */
  function HashOf(ps: seq<(Bytes, Bytes)>): map<Bytes, Bytes> {
    if ps == [] then map[] else
    var h := HashOf(ps[..|ps| - 1]);
    var p := ps[|ps| - 1];
    if p.0 in h then h else h[p.0 := p.1]
  }

  function SetOf(ms: seq<Bytes>): set<Bytes> {
    if ms == [] then {} else SetOf(ms[..|ms| - 1]) + {ms[|ms| - 1]}
  }

  /** Assignment: the last of equal members wins. */
  function DictOf(ps: seq<(Bytes, F64)>): Dict {
    if ps == [] then map[] else DictOf(ps[..|ps| - 1])[ps[|ps| - 1].0 := ps[|ps| - 1].1]
  }

  /** The skip list gets every pair. */
  function ListOf(ps: seq<(Bytes, F64)>): seq<Elem> {
    if ps == [] then [] else
    var p := ps[|ps| - 1];
    Inserted(ListOf(ps[..|ps| - 1]), Elem(p.1, p.0))
  }

  /**
  A content the skip list may have after inserting the pairs in order.  The place of a key among NaN scores depends on
  the levels drawn, so there may be several; ListOf is one of them.
  */
  ghost predicate Rebuilt(ps: seq<(Bytes, F64)>, s: seq<Elem>)
    decreases |ps|
  {
    if ps == [] then s == [] else
    var p := ps[|ps| - 1];
    exists t :: Rebuilt(ps[..|ps| - 1], t) && Placed(t, Elem(p.1, p.0), s)
  }

  ghost predicate NoNaN(ps: seq<(Bytes, F64)>) {
    forall i :: 0 <= i < |ps| ==> !IsNaN(ps[i].1)
  }

  lemma {:induction false} ListSorted(ps: seq<(Bytes, F64)>)
    requires NoNaN(ps)
    ensures Sorted(ListOf(ps)) && |ListOf(ps)| <= |ps|
    decreases |ps|
  {
    if ps != [] {
      var n := |ps| - 1;
      ListSorted(ps[..n]);
      InsertedSorted(ListOf(ps[..n]), Elem(ps[n].1, ps[n].0));
    }
  }

  lemma {:induction false} ListIsRebuilt(ps: seq<(Bytes, F64)>)
    ensures Rebuilt(ps, ListOf(ps))
    decreases |ps|
  {
    if ps != [] {
      var n := |ps| - 1;
      ListIsRebuilt(ps[..n]);
      InsertedIsPlaced(ListOf(ps[..n]), Elem(ps[n].1, ps[n].0));
    }
  }

  /** Without NaN it is the only one. */
  lemma {:induction false} RebuiltOnce(ps: seq<(Bytes, F64)>, s: seq<Elem>)
    requires NoNaN(ps) && Rebuilt(ps, s)
    ensures s == ListOf(ps)
    decreases |ps|
  {
    if ps != [] {
      var n := |ps| - 1;
      var t :| Rebuilt(ps[..n], t) && Placed(t, Elem(ps[n].1, ps[n].0), s);
      RebuiltOnce(ps[..n], t);
      ListSorted(ps[..n]);
      PlacedIsInserted(t, Elem(ps[n].1, ps[n].0), s);
    }
  }

  /** The value a payload is read as, when every level drawn is the lowest. */
  function ValueOf(p: Payload): Value {
    match p
    case Text(s) => Str(s)
    case Fields(fields) => Hash(HashOf(fields))
    case Items(items) => List(items)
    case Members(members) => Set(SetOf(members))
    case Scored(scored) => ZSet(DictOf(scored), ListOf(scored))
  }

  /** A 64-bit word read as a signed number, and back. */
  function Signed(v: U64): I64 {
    if v < TWO63 then v else v - TWO64
  }

  function Unsigned(v: I64): U64 {
    if v >= 0 then v else v + TWO64
  }

  function EntryOf(s: Saved): Entry {
    Entry(ValueOf(s.payload), Signed(s.expires))
  }

  /** One table filled with records, later ones overwriting earlier ones. */
  function Filled(t: Table, recs: seq<Rec>): Table {
    if recs == [] then t else
    var r := recs[|recs| - 1];
    Filled(t, recs[..|recs| - 1])[r.0 := EntryOf(r.1)]
  }

  function Restored(slots: seq<Slot>): (tables: seq<Table>)
    requires forall s :: s in slots ==> s.idx < NUM_SLOTS
    ensures |tables| == NUM_DATABASES
  {
    if slots == [] then NoTables() else
    var s := slots[|slots| - 1];
    var tables := Restored(slots[..|slots| - 1]);
    tables[s.idx := Filled(tables[s.idx], s.recs)]
  }

  // ---- and for any levels drawn ----

  /** A key with the entry stored under it. */
  type Item = (Bytes, Entry)

  datatype StoredSlot = StoredSlot(idx: Byte, items: seq<Item>)

  /** v may be what a payload is read as. */
  ghost predicate Reads(p: Payload, v: Value) {
    if p.Scored? then v.ZSet? && v.dict == DictOf(p.scored) && Rebuilt(p.scored, v.sorted) else v == ValueOf(p)
  }

  ghost predicate ReadsItem(r: Rec, it: Item) {
    it.0 == r.0 && it.1.expires == Signed(r.1.expires) && Reads(r.1.payload, it.1.value)
  }

  ghost predicate ReadsItems(recs: seq<Rec>, items: seq<Item>) {
    |recs| == |items| && forall i :: 0 <= i < |recs| ==> ReadsItem(recs[i], items[i])
  }

  ghost predicate ReadsSlots(slots: seq<Slot>, us: seq<StoredSlot>) {
    |slots| == |us| &&
    forall i :: 0 <= i < |slots| ==> us[i].idx == slots[i].idx && ReadsItems(slots[i].recs, us[i].items)
  }

  function StoredIn(t: Table, items: seq<Item>): Table {
    if items == [] then t else StoredIn(t, items[..|items| - 1])[items[|items| - 1].0 := items[|items| - 1].1]
  }

  function StoredAll(us: seq<StoredSlot>): (tables: seq<Table>)
    requires forall u :: u in us ==> u.idx < NUM_SLOTS
    ensures |tables| == NUM_DATABASES
  {
    if us == [] then NoTables() else
    var u := us[|us| - 1];
    var tables := StoredAll(us[..|us| - 1]);
    tables[u.idx := StoredIn(tables[u.idx], u.items)]
  }

  /** The tables may be what these slots are loaded as. */
  ghost predicate MayLoad(slots: seq<Slot>, tables: seq<Table>) {
    exists us: seq<StoredSlot> ::
      ReadsSlots(slots, us) && (forall u :: u in us ==> u.idx < NUM_SLOTS) && tables == StoredAll(us)
  }

  /** No score of a sorted set is NaN. */
  ghost predicate CleanRec(r: Rec) {
    r.1.payload.Scored? ==> NoNaN(r.1.payload.scored)
  }

  ghost predicate Clean(slots: seq<Slot>) {
    forall i :: 0 <= i < |slots| ==> CleanRecs(slots[i].recs)
  }

  ghost predicate CleanRecs(recs: seq<Rec>) {
    forall i :: 0 <= i < |recs| ==> CleanRec(recs[i])
  }

  lemma ReadsOnce(r: Rec, it: Item)
    requires CleanRec(r) && ReadsItem(r, it)
    ensures it.1 == EntryOf(r.1)
  {
    if r.1.payload.Scored? {
      RebuiltOnce(r.1.payload.scored, it.1.value.sorted);
    }
  }

  lemma {:induction false} StoredOnce(t: Table, recs: seq<Rec>, items: seq<Item>)
    requires ReadsItems(recs, items) && CleanRecs(recs)
    ensures StoredIn(t, items) == Filled(t, recs)
    decreases |recs|
  {
    if recs != [] {
      var n := |recs| - 1;
      StoredOnce(t, recs[..n], items[..n]);
      ReadsOnce(recs[n], items[n]);
    }
  }

  /** Without NaN scores there is one outcome. */
  lemma {:induction false} LoadedOnce(slots: seq<Slot>, us: seq<StoredSlot>)
    requires ReadsSlots(slots, us) && Clean(slots)
    requires (forall u :: u in us ==> u.idx < NUM_SLOTS) && forall s :: s in slots ==> s.idx < NUM_SLOTS
    ensures StoredAll(us) == Restored(slots)
    decreases |slots|
  {
    if slots != [] {
      var n := |slots| - 1;
      LoadedOnce(slots[..n], us[..n]);
      StoredOnce(Restored(slots[..n])[slots[n].idx], slots[n].recs, us[n].items);
    }
  }

  // ---- what a writer may produce ----

  /** ps goes through m once, in some order, writing each value in an admissible way. */
  ghost predicate Lists<V, W>(ps: seq<(Bytes, W)>, m: map<Bytes, V>, writes: (W, V) -> bool)
    decreases |ps|
  {
    if ps == [] then m == map[] else
    var p := ps[|ps| - 1];
    p.0 in m && writes(p.1, m[p.0]) && Lists(ps[..|ps| - 1], m - {p.0}, writes)
  }

  ghost predicate ListsSet(ms: seq<Bytes>, s: set<Bytes>)
    decreases |ms|
  {
    if ms == [] then s == {} else
    var m := ms[|ms| - 1];
    m in s && ListsSet(ms[..|ms| - 1], s - {m})
  }

  predicate Same<V(==)>(a: V, b: V) {
    a == b
  }

  ghost predicate Writes(p: Payload, v: Value) {
    match v
    case Str(s) => p == Text(s)
    case Hash(h) => p.Fields? && Lists(p.fields, h, Same)
    case List(l) => p == Items(l)
    case Set(members) => p.Members? && ListsSet(p.members, members)
    case ZSet(dict, _) => p.Scored? && Lists(p.scored, dict, Same)
  }

  ghost predicate Saves(s: Saved, e: Entry) {
    s.expires == Unsigned(e.expires) && Writes(s.payload, e.value)
  }

  /** The indices below n of tables that hold something. */
  function Occupied(tables: seq<Table>, n: nat): (used: seq<nat>)
    requires n <= |tables|
    ensures |used| <= n && forall i :: 0 <= i < |used| ==> used[i] < n
  {
    if n == 0 then [] else
      Occupied(tables, n - 1) + if |tables[n - 1]| == 0 then [] else [n - 1]
  }

  ghost predicate SavesSlot(s: Slot, tables: seq<Table>, d: nat)
    requires d < |tables|
  {
    s.idx == d && Lists(s.recs, tables[d], Saves)
  }

  /** One slot for each occupied table below n, in order. */
  ghost predicate Snapshot(slots: seq<Slot>, tables: seq<Table>, n: nat)
    requires n <= |tables|
  {
    var used := Occupied(tables, n);
    |slots| == |used| && forall i :: 0 <= i < |slots| ==> SavesSlot(slots[i], tables, used[i])
  }

  // ---- reading gives back what was written ----

  lemma {:induction false} HashBack(ps: seq<(Bytes, Bytes)>, h: map<Bytes, Bytes>)
    requires Lists(ps, h, Same)
    ensures HashOf(ps) == h
    decreases |ps|
  {
    if ps != [] {
      HashBack(ps[..|ps| - 1], h - {ps[|ps| - 1].0});
    }
  }

  lemma {:induction false} SetBack(ms: seq<Bytes>, s: set<Bytes>)
    requires ListsSet(ms, s)
    ensures SetOf(ms) == s
    decreases |ms|
  {
    if ms != [] {
      SetBack(ms[..|ms| - 1], s - {ms[|ms| - 1]});
    }
  }

  lemma {:induction false} ZSetBack(ps: seq<(Bytes, F64)>, d: Dict)
    requires Lists(ps, d, Same) && forall m :: m in d ==> !IsNaN(d[m])
    ensures DictOf(ps) == d && Agree(d, ListOf(ps))
    decreases |ps|
  {
    if ps != [] {
      var p := ps[|ps| - 1];
      var rest := d - {p.0};
      ZSetBack(ps[..|ps| - 1], rest);
      assert rest[p.0 := p.1] == d;
      InsertAgrees(rest, ListOf(ps[..|ps| - 1]), p.0, p.1);
    }
  }

  /** The two indexes of every sorted set agree. */
  ghost predicate Sound(v: Value) {
    v.ZSet? ==> Agree(v.dict, v.sorted)
  }

  lemma AgreedScores(d: Dict, s: seq<Elem>, m: Bytes)
    requires Agree(d, s) && m in d
    ensures !IsNaN(d[m])
  {
    assert Elem(d[m], m) in s;
    var i :| 0 <= i < |s| && s[i] == Elem(d[m], m);
  }

  lemma ListedClean(ps: seq<(Bytes, F64)>, d: Dict, s: seq<Elem>)
    requires Lists(ps, d, Same) && Agree(d, s)
    ensures NoNaN(ps)
  {
    ListsCount(ps, d, Same);
    forall i | 0 <= i < |ps|
      ensures !IsNaN(ps[i].1)
    {
      assert ps[i] in ps;
      AgreedScores(d, s, ps[i].0);
    }
  }

  lemma ValueBack(p: Payload, v: Value)
    requires Writes(p, v) && Sound(v)
    ensures ValueOf(p) == v
  {
    match v {
      case Str(_) =>
      case Hash(h) => HashBack(p.fields, h);
      case List(_) =>
      case Set(members) => SetBack(p.members, members);
      case ZSet(dict, sorted) =>
        forall m | m in dict ensures !IsNaN(dict[m]) { AgreedScores(dict, sorted, m); }
        ZSetBack(p.scored, dict);
        AgreeUnique(dict, sorted, ListOf(p.scored));
    }
  }

  lemma EntryBack(s: Saved, e: Entry)
    requires Saves(s, e) && Sound(e.value)
    ensures EntryOf(s) == e
  {
    ValueBack(s.payload, e.value);
  }

  ghost predicate SoundTable(t: Table) {
    forall k :: k in t ==> Sound(t[k].value)
  }

  lemma {:induction false} TableBack(recs: seq<Rec>, t: Table)
    requires Lists(recs, t, Saves) && SoundTable(t)
    ensures Filled(map[], recs) == t
    decreases |recs|
  {
    if recs != [] {
      var r := recs[|recs| - 1];
      TableBack(recs[..|recs| - 1], t - {r.0});
      EntryBack(r.1, t[r.0]);
    }
  }

  /** The first n tables, the others empty. */
  function Below(tables: seq<Table>, n: nat): seq<Table>
    requires |tables| == NUM_DATABASES
  {
    seq(NUM_DATABASES, i requires 0 <= i < NUM_DATABASES => if i < n then tables[i] else map[])
  }

  ghost predicate AllSound(tables: seq<Table>) {
    forall d :: 0 <= d < |tables| ==> SoundTable(tables[d])
  }

  lemma SnapshotIndices(slots: seq<Slot>, tables: seq<Table>, n: nat)
    requires |tables| == NUM_DATABASES && n <= NUM_DATABASES && Snapshot(slots, tables, n)
    ensures forall s :: s in slots ==> s.idx < NUM_SLOTS
  {
    forall s | s in slots ensures s.idx < NUM_SLOTS {
      var i :| 0 <= i < |slots| && slots[i] == s;
      assert SavesSlot(slots[i], tables, Occupied(tables, n)[i]);
    }
  }

  lemma SnapshotLast(slots: seq<Slot>, tables: seq<Table>, n: nat)
    requires 0 < n <= |tables| && Snapshot(slots, tables, n) && |tables[n - 1]| > 0
    ensures |slots| > 0 && Snapshot(slots[..|slots| - 1], tables, n - 1) && SavesSlot(slots[|slots| - 1], tables, n - 1)
  {
    var k := |slots| - 1;
    var used := Occupied(tables, n);
    assert used == Occupied(tables, n - 1) + [n - 1];
    assert SavesSlot(slots[k], tables, used[k]);
    forall i | 0 <= i < k ensures SavesSlot(slots[..k][i], tables, used[i]) {
      assert SavesSlot(slots[i], tables, used[i]);
    }
  }

  lemma BelowNext(tables: seq<Table>, n: nat)
    requires |tables| == NUM_DATABASES && 0 < n <= NUM_DATABASES
    ensures Below(tables, n) == Below(tables, n - 1)[n - 1 := tables[n - 1]]
  {
  }

  lemma BelowNone(tables: seq<Table>)
    requires |tables| == NUM_DATABASES
    ensures Below(tables, 0) == NoTables()
  {
  }

  lemma SnapshotSkip(slots: seq<Slot>, tables: seq<Table>, n: nat)
    requires |tables| == NUM_DATABASES && 0 < n <= NUM_DATABASES && Snapshot(slots, tables, n) && |tables[n - 1]| == 0
    ensures Snapshot(slots, tables, n - 1) && Below(tables, n) == Below(tables, n - 1)
  {
    assert Occupied(tables, n) == Occupied(tables, n - 1);
    BelowNext(tables, n);
  }

  lemma TablesBackStep(slots: seq<Slot>, tables: seq<Table>, n: nat)
    requires |tables| == NUM_DATABASES && 0 < n <= NUM_DATABASES && slots != []
    requires forall s :: s in slots ==> s.idx < NUM_SLOTS
    requires SavesSlot(slots[|slots| - 1], tables, n - 1)
    requires SoundTable(tables[n - 1])
    requires Restored(slots[..|slots| - 1]) == Below(tables, n - 1)
    ensures Restored(slots) == Below(tables, n)
  {
    TableBack(slots[|slots| - 1].recs, tables[n - 1]);
    BelowNext(tables, n);
  }

  lemma {:induction false} TablesBack(slots: seq<Slot>, tables: seq<Table>, n: nat)
    requires |tables| == NUM_DATABASES && n <= NUM_DATABASES && Snapshot(slots, tables, n) && AllSound(tables)
    requires forall s :: s in slots ==> s.idx < NUM_SLOTS
    ensures Restored(slots) == Below(tables, n)
    decreases n
  {
    if n == 0 {
      BelowNone(tables);
    } else if |tables[n - 1]| == 0 {
      SnapshotSkip(slots, tables, n);
      TablesBack(slots, tables, n - 1);
    } else {
      SnapshotLast(slots, tables, n);
      TablesBack(slots[..|slots| - 1], tables, n - 1);
      TablesBackStep(slots, tables, n);
    }
  }

  lemma SavedClean(recs: seq<Rec>, t: Table)
    requires Lists(recs, t, Saves) && SoundTable(t)
    ensures CleanRecs(recs)
  {
    ListsCount(recs, t, Saves);
    forall i | 0 <= i < |recs|
      ensures CleanRec(recs[i])
    {
      assert recs[i] in recs;
      var payload, v := recs[i].1.payload, t[recs[i].0].value;
      if payload.Scored? {
        ListedClean(payload.scored, v.dict, v.sorted);
      }
    }
  }

  /** A snapshot of sound tables holds no NaN. */
  lemma SnapshotClean(slots: seq<Slot>, tables: seq<Table>, n: nat)
    requires n <= |tables| && Snapshot(slots, tables, n) && AllSound(tables)
    ensures Clean(slots)
  {
    var used := Occupied(tables, n);
    forall i | 0 <= i < |slots|
      ensures CleanRecs(slots[i].recs)
    {
      assert SavesSlot(slots[i], tables, used[i]);
      SavedClean(slots[i].recs, tables[used[i]]);
    }
  }

  lemma AllBack(slots: seq<Slot>, tables: seq<Table>)
    requires |tables| == NUM_DATABASES && Snapshot(slots, tables, NUM_DATABASES) && AllSound(tables)
    ensures (forall s :: s in slots ==> s.idx < NUM_SLOTS) && Restored(slots) == tables
  {
    SnapshotIndices(slots, tables, NUM_DATABASES);
    TablesBack(slots, tables, NUM_DATABASES);
    assert Below(tables, NUM_DATABASES) == tables;
  }

  // ---- sizes ----

  lemma {:induction false} ListsCount<V, W>(ps: seq<(Bytes, W)>, m: map<Bytes, V>, writes: (W, V) -> bool)
    requires Lists(ps, m, writes)
    ensures |ps| == |m|
    ensures forall p :: p in ps ==> p.0 in m && writes(p.1, m[p.0])
    decreases |ps|
  {
    if ps != [] {
      var p := ps[|ps| - 1];
      ListsCount(ps[..|ps| - 1], m - {p.0}, writes);
      assert (m - {p.0}).Keys == m.Keys - {p.0};
      assert ps == ps[..|ps| - 1] + [p];
    }
  }

  lemma {:induction false} ListsSetCount(ms: seq<Bytes>, s: set<Bytes>)
    requires ListsSet(ms, s)
    ensures |ms| == |s| && forall m :: m in ms ==> m in s
    decreases |ms|
  {
    if ms != [] {
      ListsSetCount(ms[..|ms| - 1], s - {ms[|ms| - 1]});
      assert ms == ms[..|ms| - 1] + [ms[|ms| - 1]];
    }
  }

  /** Every length and count of a value fits four bytes. */
  ghost predicate Small(v: Value) {
    match v
    case Str(s) => |s| < TWO32
    case Hash(h) => |h| < TWO32 && forall k :: k in h ==> |k| < TWO32 && |h[k]| < TWO32
    case List(l) => |l| < TWO32 && forall s :: s in l ==> |s| < TWO32
    case Set(members) => |members| < TWO32 && forall m :: m in members ==> |m| < TWO32
    case ZSet(dict, _) => |dict| < TWO32 && forall m :: m in dict ==> |m| < TWO32
  }

  ghost predicate SmallTable(t: Table) {
    |t| < TWO32 && forall k :: k in t ==> |k| < TWO32 && Small(t[k].value)
  }

  lemma SmallFits(p: Payload, v: Value)
    requires Writes(p, v) && Small(v)
    ensures Fits(p)
  {
    match v {
      case Str(_) =>
      case Hash(h) => ListsCount(p.fields, h, Same);
      case List(_) =>
      case Set(members) => ListsSetCount(p.members, members);
      case ZSet(dict, _) => ListsCount(p.scored, dict, Same);
    }
  }

  lemma SlotFits(s: Slot, tables: seq<Table>, d: nat)
    requires d < |tables| && d < NUM_SLOTS && SavesSlot(s, tables, d) && SmallTable(tables[d])
    ensures FitsSlot(s)
  {
    ListsCount(s.recs, tables[d], Saves);
    forall r | r in s.recs ensures FitsRec(r) {
      SmallFits(r.1.payload, tables[d][r.0].value);
    }
  }

  lemma SnapshotFits(slots: seq<Slot>, tables: seq<Table>, n: nat)
    requires |tables| == NUM_DATABASES && n <= NUM_DATABASES && Snapshot(slots, tables, n)
    requires forall d :: 0 <= d < NUM_DATABASES ==> SmallTable(tables[d])
    ensures |slots| < 256 && forall s :: s in slots ==> FitsSlot(s)
  {
    forall s | s in slots ensures FitsSlot(s) {
      var i :| 0 <= i < |slots| && slots[i] == s;
      SlotFits(s, tables, Occupied(tables, n)[i]);
    }
  }

  /** The loader's result on a whole file: an error, or the tables that replace the old ones. */
  datatype Outcome = Refused(why: LoadError) | Loaded(tables: seq<Table>)

  lemma {:induction false} SlotIndices(b: Bytes, p: nat, n: nat)
    ensures var g := GetMany(GetSlot, b, p, n); g.Got? ==> forall s :: s in g.value ==> s.idx < NUM_SLOTS
    decreases n
  {
    if n > 0 && GetSlot(b, p).Got? {
      SlotIndices(b, GetSlot(b, p).pos, n - 1);
    }
  }

  function Load(data: Bytes): (r: Outcome)
    ensures r.Loaded? ==> |r.tables| == NUM_DATABASES
  {
    match Scanned(data)
    case Fail(why) => Refused(why)
    case Got(slots, _) =>
      SlotIndices(data, |MAGIC| + 1, data[|MAGIC|]);
      Loaded(Restored(slots))
  }

  /** Tables the format can hold: sorted sets with agreeing indexes, lengths and counts below 2^32. */
  ghost predicate Storable(tables: seq<Table>) {
    |tables| == NUM_DATABASES && AllSound(tables) && forall d :: 0 <= d < NUM_DATABASES ==> SmallTable(tables[d])
  }

  lemma LoadDump(slots: seq<Slot>)
    requires |slots| < 256 && (forall s :: s in slots ==> s.idx < NUM_SLOTS) && forall s :: s in slots ==> FitsSlot(s)
    ensures Load(Dump(slots)) == Loaded(Restored(slots))
  {
    DumpScanned(slots);
  }

  /**
  The round trip, for all five types and every order of writing: a snapshot of tables whose sorted sets are sound and
  whose sizes fit loads as the very same tables, deadlines and slots included.
  */
  lemma SnapshotRoundTrip(slots: seq<Slot>, tables: seq<Table>)
    requires Storable(tables) && Snapshot(slots, tables, NUM_DATABASES)
    ensures |slots| < 256 && Load(Dump(slots)) == Loaded(tables)
  {
    SnapshotFits(slots, tables, NUM_DATABASES);
    AllBack(slots, tables);
    LoadDump(slots);
  }

  lemma SnapshotScanned(slots: seq<Slot>, tables: seq<Table>)
    requires Storable(tables) && Snapshot(slots, tables, NUM_DATABASES)
    ensures |slots| < 256 && Scanned(Dump(slots)) == Got(slots, |Body(slots)|)
  {
    SnapshotFits(slots, tables, NUM_DATABASES);
    DumpScanned(slots);
  }

  /** A loadable file is refused after any change confined to four consecutive bytes. */
  lemma CorruptionRefused(pre: Bytes, m: Bytes, m': Bytes, post: Bytes)
    requires |m| == |m'| <= 4 && m != m' && Load(pre + m + post).Loaded?
    ensures Load(pre + m' + post).Refused?
  {
    BurstRefused(pre, m, m', post);
  }
}
