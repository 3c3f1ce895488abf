/** Writing and loading snapshots as the program does it: appending to a buffer, and reading with a cursor. */
module Rdb {
  import opened Common
  import opened Float
  import opened SortedKeys
  import opened ZSetSpec
  import opened Values
  import opened Databases
  import opened Crc
  import opened RdbFormat
  import opened RdbCodec
  import opened Snapshots

  // ---- writing ----

  /** The n low bytes of v, lowest first. */
  method PutWord(out: Bytes, v: nat, n: nat) returns (r: Bytes)
    ensures r == out + Word(v, n)
  {
    r := out;
    var w := v;
    for i := 0 to n
      invariant r + Word(w, n - i) == out + Word(v, n)
    {
      ConcatAssoc(r, [w % 256], Word(w / 256, n - i - 1));
      r := r + [w % 256];
      w := w / 256;
    }
  }

  method PutStr(out: Bytes, s: Bytes) returns (r: Bytes)
    ensures r == out + EncStr(s)
  {
    r := PutWord(out, |s|, 4);
    ConcatAssoc(out, Word(|s|, 4), s);
    r := r + s;
  }

  lemma {:induction false} EncSnoc<T>(enc: T -> Bytes, xs: seq<T>, x: T)
    ensures EncMany(enc, xs + [x]) == EncMany(enc, xs) + enc(x)
    decreases |xs|
  {
    if xs == [] {
      assert xs + [x] == [x];
    } else {
      EncSnoc(enc, xs[1..], x);
      assert (xs + [x])[1..] == xs[1..] + [x];
    }
  }

  lemma OneMore<T>(enc: T -> Bytes, out: Bytes, xs: seq<T>, x: T)
    ensures out + EncMany(enc, xs) + enc(x) == out + EncMany(enc, xs + [x])
  {
    EncSnoc(enc, xs, x);
    ConcatAssoc(out, EncMany(enc, xs), enc(x));
  }

  lemma ListsMore<V, W>(ps: seq<(Bytes, W)>, m: map<Bytes, V>, writes: (W, V) -> bool, rest: set<Bytes>, k: Bytes, w: W)
    requires rest <= m.Keys && k in rest && Lists(ps, m - rest, writes) && writes(w, m[k])
    ensures Lists(ps + [(k, w)], m - (rest - {k}), writes)
  {
    var more := m - (rest - {k});
    assert more - {k} == m - rest;
    assert (ps + [(k, w)])[..|ps|] == ps;
  }

  lemma ListsSetMore(ms: seq<Bytes>, s: set<Bytes>, rest: set<Bytes>, k: Bytes)
    requires rest <= s && k in rest && ListsSet(ms, s - rest)
    ensures ListsSet(ms + [k], s - (rest - {k}))
  {
    assert s - (rest - {k}) - {k} == s - rest;
    assert (ms + [k])[..|ms|] == ms;
  }

  method PutHash(out: Bytes, h: map<Bytes, Bytes>) returns (r: Bytes, ghost ps: seq<(Bytes, Bytes)>)
    ensures r == out + EncSeq(EncField, ps) && Lists(ps, h, Same)
  {
    r := PutWord(out, |h|, 4);
    ghost var start := r;
    ps := [];
    var rest := h.Keys;
    assert h - rest == map[] && start + EncMany(EncField, []) == start;
    while rest != {}
      invariant rest <= h.Keys && Lists(ps, h - rest, Same) && r == start + EncMany(EncField, ps)
      decreases |rest|
    {
      var k :| k in rest;
      OneMore(EncField, start, ps, (k, h[k]));
      ListsMore(ps, h, Same, rest, k, h[k]);
      ConcatAssoc(r, EncStr(k), EncStr(h[k]));
      r := PutStr(r, k);
      r := PutStr(r, h[k]);
      ps := ps + [(k, h[k])];
      rest := rest - {k};
    }
    assert h - {} == h;
    ListsCount(ps, h, Same);
    ConcatAssoc(out, Word(|h|, 4), EncMany(EncField, ps));
  }

  method PutDict(out: Bytes, d: Dict) returns (r: Bytes, ghost ps: seq<(Bytes, F64)>)
    ensures r == out + EncSeq(EncScored, ps) && Lists(ps, d, Same)
  {
    r := PutWord(out, |d|, 4);
    ghost var start := r;
    ps := [];
    var rest := d.Keys;
    assert d - rest == map[] && start + EncMany(EncScored, []) == start;
    while rest != {}
      invariant rest <= d.Keys && Lists(ps, d - rest, Same) && r == start + EncMany(EncScored, ps)
      decreases |rest|
    {
      var k :| k in rest;
      OneMore(EncScored, start, ps, (k, d[k]));
      ListsMore(ps, d, Same, rest, k, d[k]);
      ConcatAssoc(r, EncStr(k), Word(d[k], 8));
      r := PutStr(r, k);
      r := PutWord(r, d[k], 8);
      ps := ps + [(k, d[k])];
      rest := rest - {k};
    }
    assert d - {} == d;
    ListsCount(ps, d, Same);
    ConcatAssoc(out, Word(|d|, 4), EncMany(EncScored, ps));
  }

  method PutSet(out: Bytes, s: set<Bytes>) returns (r: Bytes, ghost ms: seq<Bytes>)
    ensures r == out + EncSeq(EncStr, ms) && ListsSet(ms, s)
  {
    r := PutWord(out, |s|, 4);
    ghost var start := r;
    ms := [];
    var rest := s;
    assert start + EncMany(EncStr, []) == start;
    while rest != {}
      invariant rest <= s && ListsSet(ms, s - rest) && r == start + EncMany(EncStr, ms)
      decreases |rest|
    {
      var k :| k in rest;
      OneMore(EncStr, start, ms, k);
      ListsSetMore(ms, s, rest, k);
      r := PutStr(r, k);
      ms := ms + [k];
      rest := rest - {k};
    }
    assert s - {} == s;
    ListsSetCount(ms, s);
    ConcatAssoc(out, Word(|s|, 4), EncMany(EncStr, ms));
  }

  method PutList(out: Bytes, l: seq<Bytes>) returns (r: Bytes)
    ensures r == out + EncSeq(EncStr, l)
  {
    r := PutWord(out, |l|, 4);
    ghost var start := r;
    assert start + EncMany(EncStr, []) == start;
    for i := 0 to |l|
      invariant r == start + EncMany(EncStr, l[..i])
    {
      OneMore(EncStr, start, l[..i], l[i]);
      assert l[..i + 1] == l[..i] + [l[i]];
      r := PutStr(r, l[i]);
    }
    assert l[..|l|] == l;
    ConcatAssoc(out, Word(|l|, 4), EncMany(EncStr, l));
  }

  method PutValue(out: Bytes, v: Value) returns (r: Bytes, ghost p: Payload)
    ensures r == out + EncPayload(p) && Writes(p, v)
  {
    match v {
      case Str(s) =>
        r := PutStr(out, s);
        p := Text(s);
      case Hash(h) =>
        ghost var ps;
        r, ps := PutHash(out, h);
        p := Fields(ps);
      case List(l) =>
        r := PutList(out, l);
        p := Items(l);
      case Set(members) =>
        ghost var ms;
        r, ms := PutSet(out, members);
        p := Members(ms);
      case ZSet(dict, _) =>
        ghost var ps;
        r, ps := PutDict(out, dict);
        p := Scored(ps);
    }
  }

  function TypeOf(v: Value): Byte {
    match v
    case Str(_) => 0
    case Hash(_) => 1
    case List(_) => 2
    case Set(_) => 3
    case ZSet(_, _) => 4
  }

  method PutEntry(out: Bytes, key: Bytes, e: Entry) returns (r: Bytes, ghost saved: Saved)
    ensures r == out + EncRec((key, saved)) && Saves(saved, e)
  {
    var expires := Unsigned(e.expires);
    r := out + [TypeOf(e.value)];
    r := PutStr(r, key);
    r := PutWord(r, expires, 8);
    ghost var p;
    r, p := PutValue(r, e.value);
    saved := Saved(expires, p);
    Regroup(out, [TypeOf(e.value)], EncStr(key), Word(expires, 8), EncPayload(p));
  }

  lemma Regroup(a: Bytes, b: Bytes, c: Bytes, d: Bytes, e: Bytes)
    ensures a + b + c + d + e == a + (b + (c + (d + e)))
  {
    ConcatAssoc(a + b + c, d, e);
    ConcatAssoc(a + b, c, d + e);
    ConcatAssoc(a, b, c + (d + e));
  }

  method PutTable(out: Bytes, idx: Byte, t: Table) returns (r: Bytes, ghost slot: Slot)
    ensures r == out + EncSlot(slot) && slot.idx == idx && Lists(slot.recs, t, Saves)
  {
    r := out + [idx];
    r := PutWord(r, |t|, 4);
    ghost var start := r;
    ghost var recs: seq<Rec> := [];
    var rest := t.Keys;
    assert t - rest == map[] && start + EncMany(EncRec, []) == start;
    while rest != {}
      invariant rest <= t.Keys && Lists(recs, t - rest, Saves) && r == start + EncMany(EncRec, recs)
      decreases |rest|
    {
      var k :| k in rest;
      ghost var saved;
      r, saved := PutEntry(r, k, t[k]);
      OneMore(EncRec, start, recs, (k, saved));
      ListsMore(recs, t, Saves, rest, k, saved);
      recs := recs + [(k, saved)];
      rest := rest - {k};
    }
    assert t - {} == t;
    ListsCount(recs, t, Saves);
    slot := Slot(idx, recs);
    ConcatAssoc(out + [idx], Word(|t|, 4), EncMany(EncRec, recs));
    ConcatAssoc(out, [idx], EncSeq(EncRec, recs));
  }

  lemma EmptyMany<T>(enc: T -> Bytes, out: Bytes)
    ensures out + EncMany(enc, []) == out
  {
  }

  ghost predicate SavedSoFar(slots: seq<Slot>, tables: seq<Table>, used: seq<nat>)
    requires forall i :: 0 <= i < |used| ==> used[i] < |tables|
  {
    |slots| <= |used| && forall i :: 0 <= i < |slots| ==> SavesSlot(slots[i], tables, used[i])
  }

  lemma SavedMore(slots: seq<Slot>, slot: Slot, tables: seq<Table>, used: seq<nat>)
    requires forall i :: 0 <= i < |used| ==> used[i] < |tables|
    requires SavedSoFar(slots, tables, used) && |slots| < |used| && SavesSlot(slot, tables, used[|slots|])
    ensures SavedSoFar(slots + [slot], tables, used)
  {
  }

  method PutTables(out: Bytes, tables: seq<Table>, used: seq<nat>) returns (r: Bytes, ghost slots: seq<Slot>)
    requires |tables| == NUM_DATABASES && forall i :: 0 <= i < |used| ==> used[i] < NUM_DATABASES
    ensures r == out + EncMany(EncSlot, slots) && |slots| == |used| && SavedSoFar(slots, tables, used)
  {
    r, slots := out, [];
    EmptyMany(EncSlot, out);
    for j := 0 to |used|
      invariant |slots| == j && r == out + EncMany(EncSlot, slots) && SavedSoFar(slots, tables, used)
    {
      ghost var slot;
      r, slot := PutTable(r, used[j], tables[used[j]]);
      OneMore(EncSlot, out, slots, slot);
      SavedMore(slots, slot, tables, used);
      slots := slots + [slot];
    }
  }

  method OccupiedTables(tables: seq<Table>) returns (used: seq<nat>)
    ensures used == Occupied(tables, |tables|)
  {
    used := [];
    for i := 0 to |tables|
      invariant used == Occupied(tables, i)
    {
      if |tables[i]| > 0 {
        used := used + [i];
      }
    }
  }

  /** The bytes of a snapshot, for whatever order the hash tables are walked in. */
  method Serialize(tables: seq<Table>) returns (out: Bytes, ghost slots: seq<Slot>)
    requires |tables| == NUM_DATABASES
    ensures Snapshot(slots, tables, NUM_DATABASES) && |slots| < 256 && out == Dump(slots)
    ensures Storable(tables) ==> Load(out) == Loaded(tables)
  {
    var used := OccupiedTables(tables);
    out := MAGIC + [|used|];
    out, slots := PutTables(out, tables, used);
    ConcatAssoc(MAGIC, [|used|], EncMany(EncSlot, slots));
    var crc := ComputeCrc32(out);
    out := out + Unpack(crc);
    if Storable(tables) {
      SnapshotRoundTrip(slots, tables);
    }
  }

  // ---- reading ----

  /** What a read of `g` leaves, from a cursor that was good or bad before. */
  ghost predicate Took<T>(was: bool, g: Got<T>, ok: bool, pos: nat, v: T) {
    ok == (was && g.Got?) && (ok ==> v == g.value && pos == g.pos)
  }

  /** A cursor over the file.  `ok` goes false at the first read past the end and stays false. */
  class Reader {
    const buf: Bytes
    var pos: nat
    var ok: bool

    predicate Valid()
      reads this
    {
      pos <= |buf|
    }

    constructor (b: Bytes, p: nat)
      requires p <= |b|
      ensures Valid() && buf == b && pos == p && ok
    {
      buf, pos, ok := b, p, true;
    }

    method Need(n: nat) returns (r: bool)
      requires Valid()
      modifies this`ok
      ensures r == ok == (old(ok) && pos + n <= |buf|)
    {
      if !ok || pos + n > |buf| {
        ok := false;
        return false;
      }
      return true;
    }

    method U8() returns (v: Byte)
      requires Valid()
      modifies this
      ensures Valid() && ok == (old(ok) && old(pos) < |buf|)
      ensures if ok then v == buf[old(pos)] && pos == old(pos) + 1 else v == 0 && pos == old(pos)
    {
      var enough := Need(1);
      if !enough {
        return 0;
      }
      v := buf[pos];
      pos := pos + 1;
    }

    /** An n-byte word: each byte is shifted into its own place. */
    method ReadWord(n: nat) returns (v: nat)
      requires Valid()
      modifies this
      ensures Valid() && Took(old(ok), GetNum(buf, old(pos), n), ok, pos, v) && (!ok ==> v == 0 && pos == old(pos))
    {
      var enough := Need(n);
      if !enough {
        return 0;
      }
      v := 0;
      for i := 0 to n
        invariant ok && pos == old(pos) && pos + n <= |buf|
        invariant v == WordOf(buf[pos..pos + i])
      {
        WordSnoc(buf[pos..pos + i], buf[pos + i]);
        assert buf[pos..pos + i + 1] == buf[pos..pos + i] + [buf[pos + i]];
        v := v + buf[pos + i] * Pow256(i);
      }
      pos := pos + n;
    }

    method ReadBytes(n: nat) returns (s: Bytes)
      requires Valid()
      modifies this
      ensures Valid() && Took(old(ok), GetRaw(buf, old(pos), n), ok, pos, s)
      ensures old(pos) <= pos && (!ok ==> s == [])
    {
      var enough := Need(n);
      if !enough {
        return [];
      }
      s := buf[pos..pos + n];
      pos := pos + n;
    }

    method ReadStr() returns (s: Bytes)
      requires Valid()
      modifies this
      ensures Valid() && Took(old(ok), GetStr(buf, old(pos)), ok, pos, s)
      ensures old(pos) <= pos && (ok ==> old(pos) + 4 <= pos)
    {
      var n := ReadWord(4);
      s := ReadBytes(n);
    }

    method ReadU64() returns (v: U64)
      requires Valid()
      modifies this
      ensures Valid() && Took(old(ok), GetU64(buf, old(pos)), ok, pos, v) && old(pos) <= pos
    {
      var w := ReadWord(8);
      v := w % TWO64;
    }

    method ReadField() returns (k: Bytes, v: Bytes)
      requires Valid()
      modifies this
      ensures Valid() && Took(old(ok), GetField(buf, old(pos)), ok, pos, (k, v))
      ensures old(pos) <= pos && (ok ==> old(pos) + 4 <= pos)
    {
      k := ReadStr();
      v := ReadStr();
    }

    method ReadScored() returns (m: Bytes, score: F64)
      requires Valid()
      modifies this
      ensures Valid() && Took(old(ok), GetScored(buf, old(pos)), ok, pos, (m, score))
      ensures old(pos) <= pos && (ok ==> old(pos) + 4 <= pos)
    {
      m := ReadStr();
      score := ReadU64();
    }
  }

  lemma {:induction false} WordSnoc(s: Bytes, x: Byte)
    ensures WordOf(s + [x]) == WordOf(s) + x * Pow256(|s|)
    decreases |s|
  {
    if s == [] {
      assert s + [x] == [x] && [x][1..] == [];
    } else {
      WordSnoc(s[1..], x);
      assert (s + [x])[1..] == s[1..] + [x];
      assert x * Pow256(|s|) == 256 * (x * Pow256(|s| - 1));
    }
  }

  function Appended<T>(xs: seq<T>, g: Got<seq<T>>): Got<seq<T>> {
    match g
    case Fail(why) => Fail(why)
    case Got(ys, q) => Got(xs + ys, q)
  }

  /** Where a loop stands that has read `acc` and has k of its n items to go. */
  ghost predicate Underway<T>(get: (Bytes, nat) -> Got<T>, b: Bytes, start: nat, n: nat,
                              acc: seq<T>, ok: bool, pos: nat, k: nat)
  {
    if ok then GetMany(get, b, start, n) == Appended(acc, GetMany(get, b, pos, k)) else GetMany(get, b, start, n).Fail?
  }

  lemma Start<T>(get: (Bytes, nat) -> Got<T>, b: Bytes, p: nat, n: nat)
    ensures Underway(get, b, p, n, [], true, p, n)
  {
    var g := GetMany(get, b, p, n);
    assert g.Got? ==> [] + g.value == g.value;
  }

  lemma Round<T>(get: (Bytes, nat) -> Got<T>, b: Bytes, start: nat, n: nat, acc: seq<T>, pos: nat, k: nat, g: Got<T>)
    requires k > 0 && Underway(get, b, start, n, acc, true, pos, k) && g == get(b, pos)
    ensures g.Fail? ==> GetMany(get, b, start, n) == Fail(g.why)
    ensures g.Got? ==> Underway(get, b, start, n, acc + [g.value], true, g.pos, k - 1)
  {
    if g.Got? {
      var rest := GetMany(get, b, g.pos, k - 1);
      assert rest.Got? ==> acc + ([g.value] + rest.value) == acc + [g.value] + rest.value;
    }
  }

  lemma Finish<T>(get: (Bytes, nat) -> Got<T>, b: Bytes, start: nat, n: nat, acc: seq<T>, pos: nat)
    requires Underway(get, b, start, n, acc, true, pos, 0)
    ensures GetMany(get, b, start, n) == Got(acc, pos)
  {
    assert acc + [] == acc;
  }

  /** The rounds of a reading loop are paid for by bytes present, whatever count the file claims. */
  ghost predicate Paid(rounds: nat, start: nat, ok: bool, pos: nat) {
    start + 4 * rounds <= pos + if ok then 0 else 4
  }

  lemma HashSnoc(ps: seq<(Bytes, Bytes)>, k: Bytes, v: Bytes)
    ensures HashOf(ps + [(k, v)]) == if k in HashOf(ps) then HashOf(ps) else HashOf(ps)[k := v]
  {
    assert (ps + [(k, v)])[..|ps|] == ps;
  }

  lemma ZSetSnoc(ps: seq<(Bytes, F64)>, m: Bytes, score: F64, s: seq<Elem>, s': seq<Elem>)
    requires Rebuilt(ps, s) && Placed(s, Elem(score, m), s')
    ensures DictOf(ps + [(m, score)]) == DictOf(ps)[m := score] && Rebuilt(ps + [(m, score)], s')
  {
    var qs := ps + [(m, score)];
    assert qs[..|qs| - 1] == ps && qs[|qs| - 1] == (m, score);
    assert Rebuilt(qs[..|qs| - 1], s);
  }

  /** The list's insertion on its content: the key goes to a place where the search may stop, as the levels lead it. */
  method Place(s: seq<Elem>, e: Elem) returns (t: seq<Elem>)
    ensures Placed(s, e, t)
  {
    assert Stops(s, e, LowerBound(s, e));
    var k :| 0 <= k <= |s| && Stops(s, e, k);
    t := PlacedAt(s, e, k);
  }

  method FieldRound(r: Reader, h: map<Bytes, Bytes>, ghost start: nat, ghost n: nat,
                    ghost acc: seq<(Bytes, Bytes)>, ghost k: nat)
    returns (h': map<Bytes, Bytes>, ghost acc': seq<(Bytes, Bytes)>)
    requires r.Valid() && r.ok && k > 0 && Underway(GetField, r.buf, start, n, acc, true, r.pos, k) && h == HashOf(acc)
    modifies r
    ensures r.Valid() && Underway(GetField, r.buf, start, n, acc', r.ok, r.pos, k - 1) && h' == HashOf(acc')
    ensures old(r.pos) <= r.pos && (r.ok ==> old(r.pos) + 4 <= r.pos)
  {
    Round(GetField, r.buf, start, n, acc, r.pos, k, GetField(r.buf, r.pos));
    var f, v := r.ReadField();
    HashSnoc(acc, f, v);
    h' := if f in h then h else h[f := v];
    acc' := acc + [(f, v)];
  }

  method StrRound(r: Reader, ghost start: nat, ghost n: nat, ghost acc: seq<Bytes>, ghost k: nat) returns (s: Bytes)
    requires r.Valid() && r.ok && k > 0 && Underway(GetStr, r.buf, start, n, acc, true, r.pos, k)
    modifies r
    ensures r.Valid() && Underway(GetStr, r.buf, start, n, acc + [s], r.ok, r.pos, k - 1)
    ensures old(r.pos) <= r.pos && (r.ok ==> old(r.pos) + 4 <= r.pos)
  {
    Round(GetStr, r.buf, start, n, acc, r.pos, k, GetStr(r.buf, r.pos));
    s := r.ReadStr();
  }

  method ScoredRound(r: Reader, dict: Dict, sorted: seq<Elem>, ghost start: nat, ghost n: nat,
                     ghost acc: seq<(Bytes, F64)>, ghost k: nat)
    returns (dict': Dict, sorted': seq<Elem>, ghost acc': seq<(Bytes, F64)>)
    requires r.Valid() && r.ok && k > 0 && Underway(GetScored, r.buf, start, n, acc, true, r.pos, k)
    requires dict == DictOf(acc) && Rebuilt(acc, sorted)
    modifies r
    ensures r.Valid() && Underway(GetScored, r.buf, start, n, acc', r.ok, r.pos, k - 1)
    ensures dict' == DictOf(acc') && Rebuilt(acc', sorted')
    ensures old(r.pos) <= r.pos && (r.ok ==> old(r.pos) + 4 <= r.pos)
  {
    Round(GetScored, r.buf, start, n, acc, r.pos, k, GetScored(r.buf, r.pos));
    var m, score := r.ReadScored();
    dict' := dict[m := score];
    sorted' := Place(sorted, Elem(score, m));
    ZSetSnoc(acc, m, score, sorted, sorted');
    acc' := acc + [(m, score)];
  }

  method ReadHash(r: Reader, n: nat) returns (h: map<Bytes, Bytes>, ghost ps: seq<(Bytes, Bytes)>, ghost rounds: nat)
    requires r.Valid() && r.ok
    modifies r
    ensures r.Valid() && Took(true, GetMany(GetField, r.buf, old(r.pos), n), r.ok, r.pos, ps)
    ensures h == HashOf(ps) && Paid(rounds, old(r.pos), r.ok, r.pos)
  {
    h, ps, rounds := map[], [], 0;
    Start(GetField, r.buf, r.pos, n);
    var j := 0;
    ghost var left := n;
    while j < n && r.ok
      invariant r.Valid() && left == n - j >= 0 && rounds == j && h == HashOf(ps)
      invariant Underway(GetField, r.buf, old(r.pos), n, ps, r.ok, r.pos, left)
      invariant Paid(j, old(r.pos), r.ok, r.pos)
    {
      h, ps := FieldRound(r, h, old(r.pos), n, ps, left);
      j, left, rounds := j + 1, left - 1, rounds + 1;
    }
    if r.ok {
      Finish(GetField, r.buf, old(r.pos), n, ps, r.pos);
    }
  }

  method ReadList(r: Reader, n: nat) returns (l: seq<Bytes>, ghost rounds: nat)
    requires r.Valid() && r.ok
    modifies r
    ensures r.Valid() && Took(true, GetMany(GetStr, r.buf, old(r.pos), n), r.ok, r.pos, l)
    ensures Paid(rounds, old(r.pos), r.ok, r.pos)
  {
    l, rounds := [], 0;
    Start(GetStr, r.buf, r.pos, n);
    var j := 0;
    ghost var left := n;
    while j < n && r.ok
      invariant r.Valid() && left == n - j >= 0 && rounds == j
      invariant Underway(GetStr, r.buf, old(r.pos), n, l, r.ok, r.pos, left)
      invariant Paid(j, old(r.pos), r.ok, r.pos)
    {
      var s := StrRound(r, old(r.pos), n, l, left);
      l := l + [s];
      j, left, rounds := j + 1, left - 1, rounds + 1;
    }
    if r.ok {
      Finish(GetStr, r.buf, old(r.pos), n, l, r.pos);
    }
  }

  method ReadSet(r: Reader, n: nat) returns (m: set<Bytes>, ghost ms: seq<Bytes>, ghost rounds: nat)
    requires r.Valid() && r.ok
    modifies r
    ensures r.Valid() && Took(true, GetMany(GetStr, r.buf, old(r.pos), n), r.ok, r.pos, ms)
    ensures m == SetOf(ms) && Paid(rounds, old(r.pos), r.ok, r.pos)
  {
    m, ms, rounds := {}, [], 0;
    Start(GetStr, r.buf, r.pos, n);
    var j := 0;
    ghost var left := n;
    while j < n && r.ok
      invariant r.Valid() && left == n - j >= 0 && rounds == j && m == SetOf(ms)
      invariant Underway(GetStr, r.buf, old(r.pos), n, ms, r.ok, r.pos, left)
      invariant Paid(j, old(r.pos), r.ok, r.pos)
    {
      var s := StrRound(r, old(r.pos), n, ms, left);
      ghost var more := ms + [s];
      assert more[..|ms|] == ms;
      m := m + {s};
      ms := more;
      j, left, rounds := j + 1, left - 1, rounds + 1;
    }
    if r.ok {
      Finish(GetStr, r.buf, old(r.pos), n, ms, r.pos);
    }
  }

  method ReadZSet(r: Reader, n: nat)
    returns (dict: Dict, sorted: seq<Elem>, ghost ps: seq<(Bytes, F64)>, ghost rounds: nat)
    requires r.Valid() && r.ok
    modifies r
    ensures r.Valid() && Took(true, GetMany(GetScored, r.buf, old(r.pos), n), r.ok, r.pos, ps)
    ensures dict == DictOf(ps) && Rebuilt(ps, sorted) && Paid(rounds, old(r.pos), r.ok, r.pos)
  {
    dict, sorted, ps, rounds := map[], [], [], 0;
    Start(GetScored, r.buf, r.pos, n);
    var j := 0;
    ghost var left := n;
    while j < n && r.ok
      invariant r.Valid() && left == n - j >= 0 && rounds == j && dict == DictOf(ps) && Rebuilt(ps, sorted)
      invariant Underway(GetScored, r.buf, old(r.pos), n, ps, r.ok, r.pos, left)
      invariant Paid(j, old(r.pos), r.ok, r.pos)
    {
      dict, sorted, ps := ScoredRound(r, dict, sorted, old(r.pos), n, ps, left);
      j, left, rounds := j + 1, left - 1, rounds + 1;
    }
    if r.ok {
      Finish(GetScored, r.buf, old(r.pos), n, ps, r.pos);
    }
  }
}
