/**
The five value types, the tables that hold them and their accounted sizes.  A sorted set is its member-to-score
map and the sorted content of its skip list.
*/
module Values {
  import opened Common
  import opened SortedKeys
  import opened ZSetSpec

  datatype Value =
    | Str(s: Bytes)
    | Hash(h: map<Bytes, Bytes>)
    | List(l: seq<Bytes>)
    | Set(members: set<Bytes>)
    | ZSet(dict: Dict, sorted: seq<Elem>)

  /** `expires` is a deadline in milliseconds, 0 for none. */
  datatype Entry = Entry(value: Value, expires: I64)

  type Table = map<Bytes, Entry>

  predicate Stale(e: Entry, now: int) {
    e.expires != 0 && now >= e.expires
  }

  /** The sum of a weight over a map, in whatever order it is taken. */
  ghost function Sum<V>(m: map<Bytes, V>, w: (Bytes, V) -> nat): nat
    decreases |m|
  {
    if |m| == 0 then 0 else w(Pick(m), m[Pick(m)]) + Sum(m - {Pick(m)}, w)
  }

  ghost function Pick<V>(m: map<Bytes, V>): (k: Bytes)
    requires |m| > 0
    ensures k in m
  {
    var k :| k in m; k
  }

  lemma {:induction false} SumRemove<V>(m: map<Bytes, V>, w: (Bytes, V) -> nat, k: Bytes)
    requires k in m
    ensures Sum(m, w) == w(k, m[k]) + Sum(m - {k}, w)
    decreases |m|
  {
    var j := Pick(m);
    if j != k {
      SumRemove(m - {j}, w, k);
      SumRemove(m - {k}, w, j);
      assert m - {j} - {k} == m - {k} - {j};
    }
  }

  /** The loop shape shared by every size computation: the keys left and the weight taken so far. */
  lemma SumStep<V>(m: map<Bytes, V>, w: (Bytes, V) -> nat, rest: set<Bytes>, k: Bytes)
    requires rest <= m.Keys && k in rest
    ensures Sum(m - (m.Keys - rest), w) == w(k, m[k]) + Sum(m - (m.Keys - (rest - {k})), w)
  {
    var part := m - (m.Keys - rest);
    SumRemove(part, w, k);
    assert part - {k} == m - (m.Keys - (rest - {k}));
  }

  ghost function SumSeq(l: seq<Bytes>): nat {
    if l == [] then 0 else SumSeq(l[..|l| - 1]) + 8 + |l[|l| - 1]|
  }

  function PairWeight(k: Bytes, v: Bytes): nat { 16 + |k| + |v| }
  function MemberWeight<V>(k: Bytes, v: V): nat { 16 + |k| }

  ghost function SizeOf(v: Value): nat {
    match v
    case Str(s) => 16 + |s|
    case Hash(h) => 32 + Sum(h, PairWeight)
    case List(l) => 16 + SumSeq(l)
    case Set(members) => 16 + Sum(map k | k in members :: k, MemberWeight)
    case ZSet(dict, _) => 32 + Sum(dict, MemberWeight)
  }

  ghost function EntrySizeOf(key: Bytes, e: Entry): nat {
    48 + |key| + SizeOf(e.value)
  }

  method HashSize(h: map<Bytes, Bytes>) returns (n: nat)
    ensures n == Sum(h, PairWeight)
  {
    n := 0;
    var rest := h.Keys;
    assert h - (h.Keys - rest) == h;
    while rest != {}
      invariant rest <= h.Keys
      invariant n + Sum(h - (h.Keys - rest), PairWeight) == Sum(h, PairWeight)
      decreases |rest|
    {
      var k :| k in rest;
      SumStep(h, PairWeight, rest, k);
      n := n + 16 + |k| + |h[k]|;
      rest := rest - {k};
    }
    assert h - h.Keys == map[];
  }

  method MembersSize<V>(d: map<Bytes, V>) returns (n: nat)
    ensures n == Sum(d, MemberWeight)
  {
    n := 0;
    var rest := d.Keys;
    assert d - (d.Keys - rest) == d;
    while rest != {}
      invariant rest <= d.Keys
      invariant n + Sum(d - (d.Keys - rest), MemberWeight) == Sum(d, MemberWeight)
      decreases |rest|
    {
      var k :| k in rest;
      SumStep(d, MemberWeight, rest, k);
      n := n + 16 + |k|;
      rest := rest - {k};
    }
    assert d - d.Keys == map[];
  }

  method ListSize(l: seq<Bytes>) returns (n: nat)
    ensures n == SumSeq(l)
  {
    n := 0;
    for i := 0 to |l|
      invariant n == SumSeq(l[..i])
    {
      assert l[..i + 1][..i] == l[..i];
      n := n + 8 + |l[i]|;
    }
    assert l[..|l|] == l;
  }

  method ValueSize(v: Value) returns (n: nat)
    ensures n == SizeOf(v)
  {
    match v {
      case Str(s) => n := 16 + |s|;
      case Hash(h) =>
        n := HashSize(h);
        n := n + 32;
      case List(l) =>
        n := ListSize(l);
        n := n + 16;
      case Set(members) =>
        n := MembersSize(map k | k in members :: k);
        n := n + 16;
      case ZSet(dict, _) =>
        n := MembersSize(dict);
        n := n + 32;
    }
  }

  method EntrySize(key: Bytes, e: Entry) returns (n: nat)
    ensures n == EntrySizeOf(key, e)
  {
    n := ValueSize(e.value);
    n := 48 + |key| + n;
  }

  /** The accounted size of one table, and of all of them. */
  ghost function TableSize(t: Table): nat {
    Sum(t, EntrySizeOf)
  }

  ghost function Total(tables: seq<Table>): nat {
    if tables == [] then 0 else Total(tables[..|tables| - 1]) + TableSize(tables[|tables| - 1])
  }

  /** Replacing one table moves the total by the difference of the two. */
  lemma {:induction false} TotalUpdate(tables: seq<Table>, i: nat, t: Table)
    requires i < |tables|
    ensures Total(tables[i := t]) + TableSize(tables[i]) == Total(tables) + TableSize(t)
  {
    var n := |tables| - 1;
    var tables' := tables[i := t];
    if i == n {
      assert tables'[..n] == tables[..n];
    } else {
      assert tables'[..n] == tables[..n][i := t];
      TotalUpdate(tables[..n], i, t);
    }
  }

  lemma RemoveEntry(t: Table, k: Bytes)
    requires k in t
    ensures TableSize(t) == EntrySizeOf(k, t[k]) + TableSize(t - {k})
  {
    SumRemove(t, EntrySizeOf, k);
  }

  lemma AddEntry(t: Table, k: Bytes, e: Entry)
    requires k !in t
    ensures TableSize(t[k := e]) == EntrySizeOf(k, e) + TableSize(t)
  {
    RemoveEntry(t[k := e], k);
    assert t[k := e] - {k} == t;
  }
}
