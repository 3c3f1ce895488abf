/**
When a loaded database is sound: for every file the loader accepts, exactly when the last record written under each key
of each table is a good one.  The loader itself checks nothing of the kind.
*/
module RdbSound {
  import opened Common
  import opened Float
  import opened Values
  import opened Databases
  import opened RdbFormat
  import opened RdbCodec
  import opened Snapshots
  import opened RdbLoad
  import opened RdbZSets

  /** The payload written last under each key. */
  type Written = map<Bytes, Payload>

  function LastIn(m: Written, recs: seq<Rec>): Written {
    if recs == [] then m else
    var r := recs[|recs| - 1];
    LastIn(m, recs[..|recs| - 1])[r.0 := r.1.payload]
  }

  function NothingWritten(): seq<Written> {
    seq(NUM_DATABASES, _ => map[])
  }

  /** The same for each table, where a file may name a table several times. */
  function LastAll(slots: seq<Slot>): (ms: seq<Written>)
    requires Indexed(slots)
    ensures |ms| == NUM_DATABASES
  {
    if slots == [] then NothingWritten() else
    var s := slots[|slots| - 1];
    var ms := LastAll(slots[..|slots| - 1]);
    ms[s.idx := LastIn(ms[s.idx], s.recs)]
  }

  /** Every score is a number, and no member has two of them. */
  ghost predicate Good(p: Payload) {
    p.Scored? ==> NoNaN(p.scored) && Consistent(p.scored)
  }

  ghost predicate GoodIn(m: Written) {
    forall k :: k in m ==> Good(m[k])
  }

  ghost predicate AllGood(ms: seq<Written>) {
    forall d :: 0 <= d < |ms| ==> GoodIn(ms[d])
  }

  /** The table holds, under each key, a value its last payload may be read as. */
  ghost predicate ReadAs(m: Written, t: Table) {
    m.Keys == t.Keys && forall k :: k in m ==> Reads(m[k], t[k].value)
  }

  lemma {:induction false} StoredLast(m: Written, t: Table, recs: seq<Rec>, items: seq<Item>)
    requires ReadAs(m, t) && ReadsItems(recs, items)
    ensures ReadAs(LastIn(m, recs), StoredIn(t, items))
    decreases |recs|
  {
    if recs != [] {
      var n := |recs| - 1;
      StoredLast(m, t, recs[..n], items[..n]);
      assert ReadsItem(recs[n], items[n]);
    }
  }

  ghost predicate AllReadAs(ms: seq<Written>, tables: seq<Table>) {
    |ms| == |tables| && forall d :: 0 <= d < |ms| ==> ReadAs(ms[d], tables[d])
  }

  lemma OneSlotMore(ms: seq<Written>, tables: seq<Table>, s: Slot, u: StoredSlot,
                    ms': seq<Written>, tables': seq<Table>)
    requires AllReadAs(ms, tables) && s.idx == u.idx < |ms| && ReadsItems(s.recs, u.items)
    requires ms' == ms[s.idx := LastIn(ms[s.idx], s.recs)]
    requires tables' == tables[u.idx := StoredIn(tables[u.idx], u.items)]
    ensures AllReadAs(ms', tables')
  {
    StoredLast(ms[s.idx], tables[u.idx], s.recs, u.items);
  }

  /** The slots before the last. */
  lemma SlotsBefore(slots: seq<Slot>, us: seq<StoredSlot>, n: nat)
    requires |slots| == n + 1 && ReadsSlots(slots, us) && Indexed(slots) && forall u :: u in us ==> u.idx < NUM_SLOTS
    ensures ReadsSlots(slots[..n], us[..n]) && Indexed(slots[..n]) && forall u :: u in us[..n] ==> u.idx < NUM_SLOTS
    ensures slots[n].idx == us[n].idx < NUM_SLOTS && ReadsItems(slots[n].recs, us[n].items)
  {
    assert us[n] in us;
  }

  lemma {:induction false} AllStoredLast(slots: seq<Slot>, us: seq<StoredSlot>, ms: seq<Written>, tables: seq<Table>)
    requires ReadsSlots(slots, us) && Indexed(slots) && (forall u :: u in us ==> u.idx < NUM_SLOTS)
    requires ms == LastAll(slots) && tables == StoredAll(us)
    ensures AllReadAs(ms, tables)
    decreases |slots|
  {
    if slots != [] {
      var n := |slots| - 1;
      SlotsBefore(slots, us, n);
      var ms0, tables0 := LastAll(slots[..n]), StoredAll(us[..n]);
      AllStoredLast(slots[..n], us[..n], ms0, tables0);
      OneSlotMore(ms0, tables0, slots[n], us[n], ms, tables);
    }
  }

  lemma GoodIff(p: Payload, v: Value)
    requires Reads(p, v)
    ensures Sound(v) <==> Good(p)
  {
    if p.Scored? {
      LoadedAgreeIff(p.scored, v.sorted);
    }
  }

  lemma GoodTableIff(m: Written, t: Table)
    requires ReadAs(m, t)
    ensures SoundTable(t) <==> GoodIn(m)
  {
    forall k | k in m
      ensures Sound(t[k].value) <==> Good(m[k])
    {
      GoodIff(m[k], t[k].value);
    }
  }

  lemma AllGoodIff(ms: seq<Written>, tables: seq<Table>)
    requires AllReadAs(ms, tables)
    ensures AllSound(tables) <==> AllGood(ms)
  {
    forall d | 0 <= d < |ms|
      ensures SoundTable(tables[d]) <==> GoodIn(ms[d])
    {
      GoodTableIff(ms[d], tables[d]);
    }
  }

  lemma IndexedAsRead(slots: seq<Slot>, us: seq<StoredSlot>)
    requires ReadsSlots(slots, us) && forall u :: u in us ==> u.idx < NUM_SLOTS
    ensures Indexed(slots)
  {
    forall i | 0 <= i < |slots|
      ensures slots[i].idx < NUM_SLOTS
    {
      assert us[i] in us;
    }
  }

  /** Whatever a file is loaded as is sound if and only if every record that no later one overwrites is good. */
  lemma LoadedSoundIff(slots: seq<Slot>, tables: seq<Table>)
    requires MayLoad(slots, tables)
    ensures Indexed(slots) && (AllSound(tables) <==> AllGood(LastAll(slots)))
  {
    var us: seq<StoredSlot> :|
      ReadsSlots(slots, us) && (forall u :: u in us ==> u.idx < NUM_SLOTS) && tables == StoredAll(us);
    IndexedAsRead(slots, us);
    AllStoredLast(slots, us, LastAll(slots), tables);
    AllGoodIff(LastAll(slots), tables);
  }

  /** The condition for the loader itself, on arbitrary bytes. */
  method LoadJudged(db: Database, data: Bytes) returns (err: Option<LoadError>)
    requires db.Valid()
    modifies db
    ensures db.Valid()
    ensures match Scanned(data)
            case Fail(why) => err == Some(why) && unchanged(db)
            case Got(slots, _) =>
              err == None && Indexed(slots) && (AllSound(db.tables) <==> AllGood(LastAll(slots)))
  {
    ghost var work;
    err, work := LoadFromBytes(db, data);
    if err == None {
      LoadedSoundIff(Scanned(data).value, db.tables);
    }
  }

  // ---- there is always an outcome ----

  function PlainItems(recs: seq<Rec>): seq<Item> {
    seq(|recs|, i requires 0 <= i < |recs| => (recs[i].0, EntryOf(recs[i].1)))
  }

  function PlainSlots(slots: seq<Slot>): seq<StoredSlot> {
    seq(|slots|, i requires 0 <= i < |slots| => StoredSlot(slots[i].idx, PlainItems(slots[i].recs)))
  }

  lemma PlainRead(recs: seq<Rec>)
    ensures ReadsItems(recs, PlainItems(recs))
  {
    forall i | 0 <= i < |recs|
      ensures ReadsItem(recs[i], PlainItems(recs)[i])
    {
      var p := recs[i].1.payload;
      if p.Scored? {
        ListIsRebuilt(p.scored);
      }
    }
  }

  lemma {:induction false} PlainStored(t: Table, recs: seq<Rec>)
    ensures StoredIn(t, PlainItems(recs)) == Filled(t, recs)
    decreases |recs|
  {
    if recs != [] {
      var n := |recs| - 1;
      PlainStored(t, recs[..n]);
      assert PlainItems(recs)[..n] == PlainItems(recs[..n]);
    }
  }

  lemma {:induction false} PlainRestored(slots: seq<Slot>)
    requires Indexed(slots)
    ensures forall u :: u in PlainSlots(slots) ==> u.idx < NUM_SLOTS
    ensures StoredAll(PlainSlots(slots)) == Restored(slots)
    decreases |slots|
  {
    if slots != [] {
      var n := |slots| - 1;
      PlainRestored(slots[..n]);
      assert PlainSlots(slots)[..n] == PlainSlots(slots[..n]);
      PlainStored(Restored(slots[..n])[slots[n].idx], slots[n].recs);
    }
  }

  /** Every file whose indexes are in range has an outcome. */
  lemma SomeOutcome(slots: seq<Slot>)
    requires Indexed(slots)
    ensures MayLoad(slots, Restored(slots))
  {
    forall i | 0 <= i < |slots|
      ensures ReadsItems(slots[i].recs, PlainItems(slots[i].recs))
    {
      PlainRead(slots[i].recs);
    }
    PlainRestored(slots);
    assert ReadsSlots(slots, PlainSlots(slots));
  }

  // ---- two files that are accepted and leave an unsound database ----

  /** A file with one sorted set under one key. */
  function OneZSet(key: Bytes, ps: seq<(Bytes, F64)>): seq<Slot> {
    [Slot(0, [(key, Saved(0, Scored(ps)))])]
  }

  lemma OneZSetFits(key: Bytes, ps: seq<(Bytes, F64)>)
    requires |key| < TWO32 && |ps| < TWO32 && forall p :: p in ps ==> |p.0| < TWO32
    ensures forall s :: s in OneZSet(key, ps) ==> FitsSlot(s)
  {
    var rec: Rec := (key, Saved(0, Scored(ps)));
    assert FitsRec(rec);
  }

  lemma OneZSetLast(key: Bytes, ps: seq<(Bytes, F64)>, slots: seq<Slot>)
    requires slots == OneZSet(key, ps)
    ensures Indexed(slots) && key in LastAll(slots)[0] && LastAll(slots)[0][key] == Scored(ps)
  {
  }

  /** The loader accepts such a file, and what it leaves is unsound when its one set is bad. */
  lemma OneBadZSet(key: Bytes, ps: seq<(Bytes, F64)>, tables: seq<Table>)
    requires |key| < TWO32 && |ps| < TWO32 && forall p :: p in ps ==> |p.0| < TWO32
    requires MayLoad(OneZSet(key, ps), tables) && !Good(Scored(ps))
    ensures Scanned(Dump(OneZSet(key, ps))).Got? && !AllSound(tables)
  {
    OneZSetFits(key, ps);
    DumpScanned(OneZSet(key, ps));
    OneZSetLast(key, ps, OneZSet(key, ps));
    LoadedSoundIff(OneZSet(key, ps), tables);
    assert !GoodIn(LastAll(OneZSet(key, ps))[0]);
  }

  /** The member `b` with the scores 0 and 1: the file is accepted, and the two indexes differ. */
  lemma TwoScoresAccepted(ps: seq<(Bytes, F64)>, tables: seq<Table>)
    requires ps == [([98], 0), ([98], 0x3FF0_0000_0000_0000)] && MayLoad(OneZSet([97], ps), tables)
    ensures Scanned(Dump(OneZSet([97], ps))).Got? && !AllSound(tables)
  {
    assert ps[0].0 == ps[1].0 && !Eq(ps[0].1, ps[1].1);
    OneBadZSet([97], ps, tables);
  }

  /** The same with one NaN score. */
  lemma NaNAccepted(ps: seq<(Bytes, F64)>, tables: seq<Table>)
    requires ps == [([98], 0x7FF8_0000_0000_0000)] && MayLoad(OneZSet([97], ps), tables)
    ensures Scanned(Dump(OneZSet([97], ps))).Got? && !AllSound(tables)
  {
    assert IsNaN(ps[0].1);
    OneBadZSet([97], ps, tables);
  }
}
