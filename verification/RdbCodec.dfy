/** Reading undoes writing, record by record, at any position in any buffer. */
module RdbCodec {
  import opened Common
  import opened Float
  import opened Crc
  import opened RdbFormat

  /** s stands in b at position p. */
  ghost predicate At(b: Bytes, p: nat, s: Bytes) {
    p + |s| <= |b| && b[p..p + |s|] == s
  }

  lemma AtSplit(b: Bytes, p: nat, s: Bytes, t: Bytes)
    requires At(b, p, s + t)
    ensures At(b, p, s) && At(b, p + |s|, t)
  {
    assert s == (s + t)[..|s|] && t == (s + t)[|s|..];
  }

  lemma ByteAt(b: Bytes, p: nat, x: Byte, rest: Bytes)
    requires At(b, p, [x] + rest)
    ensures p < |b| && b[p] == x && At(b, p + 1, rest)
  {
    AtSplit(b, p, [x], rest);
    assert b[p] == b[p..p + 1][0];
  }

  function Pow256(n: nat): nat {
    if n == 0 then 1 else 256 * Pow256(n - 1)
  }

  lemma WordSizes()
    ensures Pow256(4) == TWO32 && Pow256(8) == TWO64
  {
    assert Pow256(4) == 256 * Pow256(3) && Pow256(3) == 256 * Pow256(2) && Pow256(2) == 256 * Pow256(1);
    assert Pow256(8) == 256 * Pow256(7) && Pow256(7) == 256 * Pow256(6) && Pow256(6) == 256 * Pow256(5)
        && Pow256(5) == 256 * Pow256(4);
  }

  lemma {:induction false} WordValue(v: nat, n: nat)
    requires v < Pow256(n)
    ensures WordOf(Word(v, n)) == v
    decreases n
  {
    if n > 0 {
      WordValue(v / 256, n - 1);
      assert Word(v, n)[1..] == Word(v / 256, n - 1);
    }
  }

  lemma NumRoundTrip(b: Bytes, p: nat, v: nat, n: nat)
    requires At(b, p, Word(v, n)) && v < Pow256(n)
    ensures GetNum(b, p, n) == Got(v, p + n)
  {
    WordValue(v, n);
  }

  /** Wherever s stands, get finds x and stops right after it. */
  ghost predicate Decodes<T(!new)>(get: (Bytes, nat) -> Got<T>, s: Bytes, x: T) {
    forall b, p: nat {:trigger At(b, p, s)} :: At(b, p, s) ==> get(b, p) == Got(x, p + |s|)
  }

  lemma StrRoundTrip(s: Bytes)
    requires |s| < TWO32
    ensures Decodes(GetStr, EncStr(s), s)
  {
    forall b, p: nat | At(b, p, EncStr(s))
      ensures GetStr(b, p) == Got(s, p + |EncStr(s)|)
    {
      WordSizes();
      AtSplit(b, p, Word(|s|, 4), s);
      NumRoundTrip(b, p, |s|, 4);
    }
  }

  lemma FieldRoundTrip(f: (Bytes, Bytes))
    requires |f.0| < TWO32 && |f.1| < TWO32
    ensures Decodes(GetField, EncField(f), f)
  {
    StrRoundTrip(f.0);
    StrRoundTrip(f.1);
    forall b, p: nat | At(b, p, EncField(f))
      ensures GetField(b, p) == Got(f, p + |EncField(f)|)
    {
      AtSplit(b, p, EncStr(f.0), EncStr(f.1));
    }
  }

  lemma U64RoundTrip(b: Bytes, p: nat, v: U64)
    requires At(b, p, Word(v, 8))
    ensures GetU64(b, p) == Got(v, p + 8)
  {
    WordSizes();
    NumRoundTrip(b, p, v, 8);
  }

  /** A string followed by an eight-byte word. */
  lemma StrThenWord(s: Bytes, v: U64, rest: Bytes, b: Bytes, p: nat, q: nat)
    requires |s| < TWO32 && At(b, p, EncStr(s) + (Word(v, 8) + rest)) && q == p + |EncStr(s)|
    ensures GetStr(b, p) == Got(s, q) && GetU64(b, q) == Got(v, q + 8) && At(b, q + 8, rest)
  {
    AtSplit(b, p, EncStr(s), Word(v, 8) + rest);
    AtSplit(b, q, Word(v, 8), rest);
    StrRoundTrip(s);
    U64RoundTrip(b, q, v);
  }

  lemma ScoredRoundTrip(f: (Bytes, F64))
    requires |f.0| < TWO32
    ensures Decodes(GetScored, EncScored(f), f)
  {
    forall b, p: nat | At(b, p, EncScored(f))
      ensures GetScored(b, p) == Got(f, p + |EncScored(f)|)
    {
      var w := Word(f.1, 8);
      assert EncScored(f) == EncStr(f.0) + (w + []) by { assert w + [] == w; }
      StrThenWord(f.0, f.1, [], b, p, p + |EncStr(f.0)|);
    }
  }

  lemma {:induction false} ManyRoundTrip<T(!new)>(get: (Bytes, nat) -> Got<T>, enc: T -> Bytes,
                                                 xs: seq<T>, b: Bytes, p: nat)
    requires forall i :: 0 <= i < |xs| ==> Decodes(get, enc(xs[i]), xs[i])
    requires At(b, p, EncMany(enc, xs))
    ensures GetMany(get, b, p, |xs|) == Got(xs, p + |EncMany(enc, xs)|)
    decreases |xs|
  {
    if xs != [] {
      var s := enc(xs[0]);
      AtSplit(b, p, s, EncMany(enc, xs[1..]));
      assert Decodes(get, s, xs[0]);
      ManyRoundTrip(get, enc, xs[1..], b, p + |s|);
      assert xs == [xs[0]] + xs[1..];
    }
  }

  lemma SeqRoundTrip<T(!new)>(get: (Bytes, nat) -> Got<T>, enc: T -> Bytes, xs: seq<T>, b: Bytes, p: nat)
    requires forall i :: 0 <= i < |xs| ==> Decodes(get, enc(xs[i]), xs[i])
    requires |xs| < TWO32 && At(b, p, EncSeq(enc, xs))
    ensures GetNum(b, p, 4).Got? && GetSeq(get, b, p) == Got(xs, p + |EncSeq(enc, xs)|)
  {
    WordSizes();
    AtSplit(b, p, Word(|xs|, 4), EncMany(enc, xs));
    NumRoundTrip(b, p, |xs|, 4);
    ManyRoundTrip(get, enc, xs, b, p + 4);
  }

  /** Every length and count fits its four-byte field. */
  predicate Fits(p: Payload) {
    match p
    case Text(s) => |s| < TWO32
    case Fields(fields) => |fields| < TWO32 && forall f :: f in fields ==> |f.0| < TWO32 && |f.1| < TWO32
    case Items(items) => |items| < TWO32 && forall s :: s in items ==> |s| < TWO32
    case Members(members) => |members| < TWO32 && forall s :: s in members ==> |s| < TWO32
    case Scored(scored) => |scored| < TWO32 && forall f :: f in scored ==> |f.0| < TWO32
  }

  lemma StringsRoundTrip(xs: seq<Bytes>, b: Bytes, p: nat)
    requires |xs| < TWO32 && (forall s :: s in xs ==> |s| < TWO32) && At(b, p, EncSeq(EncStr, xs))
    ensures GetSeq(GetStr, b, p) == Got(xs, p + |EncSeq(EncStr, xs)|)
  {
    forall i | 0 <= i < |xs|
      ensures Decodes(GetStr, EncStr(xs[i]), xs[i])
    {
      StrRoundTrip(xs[i]);
    }
    SeqRoundTrip(GetStr, EncStr, xs, b, p);
  }

  lemma FieldsRoundTrip(xs: seq<(Bytes, Bytes)>, b: Bytes, p: nat)
    requires |xs| < TWO32 && (forall f :: f in xs ==> |f.0| < TWO32 && |f.1| < TWO32) && At(b, p, EncSeq(EncField, xs))
    ensures GetSeq(GetField, b, p) == Got(xs, p + |EncSeq(EncField, xs)|)
  {
    forall i | 0 <= i < |xs|
      ensures Decodes(GetField, EncField(xs[i]), xs[i])
    {
      FieldRoundTrip(xs[i]);
    }
    SeqRoundTrip(GetField, EncField, xs, b, p);
  }

  lemma ScoresRoundTrip(xs: seq<(Bytes, F64)>, b: Bytes, p: nat)
    requires |xs| < TWO32 && (forall f :: f in xs ==> |f.0| < TWO32) && At(b, p, EncSeq(EncScored, xs))
    ensures GetSeq(GetScored, b, p) == Got(xs, p + |EncSeq(EncScored, xs)|)
  {
    forall i | 0 <= i < |xs|
      ensures Decodes(GetScored, EncScored(xs[i]), xs[i])
    {
      ScoredRoundTrip(xs[i]);
    }
    SeqRoundTrip(GetScored, EncScored, xs, b, p);
  }

  lemma PayloadRoundTrip(x: Payload, b: Bytes, p: nat)
    requires Fits(x) && At(b, p, EncPayload(x))
    ensures GetPayload(b, p, Tag(x)) == Got(x, p + |EncPayload(x)|)
  {
    match x {
      case Text(s) => StrRoundTrip(s);
      case Fields(fields) => FieldsRoundTrip(fields, b, p);
      case Items(items) => StringsRoundTrip(items, b, p);
      case Members(members) => StringsRoundTrip(members, b, p);
      case Scored(scored) => ScoresRoundTrip(scored, b, p);
    }
  }

  ghost predicate FitsRec(r: Rec) {
    |r.0| < TWO32 && Fits(r.1.payload)
  }

  lemma HeadRoundTrip(tag: Byte, key: Bytes, expires: U64, rest: Bytes, b: Bytes, p: nat)
    requires |key| < TWO32 && At(b, p, [tag] + (EncStr(key) + (Word(expires, 8) + rest)))
    ensures var q := p + 1 + |EncStr(key)| + 8;
            GetHead(b, p) == Got((tag, key, expires), q) && At(b, q, rest)
  {
    ByteAt(b, p, tag, EncStr(key) + (Word(expires, 8) + rest));
    StrThenWord(key, expires, rest, b, p + 1, p + 1 + |EncStr(key)|);
  }

  lemma RecIs(b: Bytes, p: nat, tag: Byte, key: Bytes, expires: U64, q: nat, x: Payload, end: nat)
    requires GetHead(b, p) == Got((tag, key, expires), q) && GetPayload(b, q, tag) == Got(x, end)
    ensures GetRec(b, p) == Got((key, Saved(expires, x)), end)
  {
  }

  lemma RecLength(r: Rec)
    ensures |EncRec(r)| == 1 + |EncStr(r.0)| + 8 + |EncPayload(r.1.payload)|
  {
  }

  lemma RecAt(r: Rec, b: Bytes, p: nat)
    requires FitsRec(r) && At(b, p, EncRec(r))
    ensures GetRec(b, p) == Got(r, p + |EncRec(r)|)
  {
    var x, key, q := r.1.payload, r.0, p + 1 + |EncStr(r.0)| + 8;
    HeadRoundTrip(Tag(x), key, r.1.expires, EncPayload(x), b, p);
    PayloadRoundTrip(x, b, q);
    RecIs(b, p, Tag(x), key, r.1.expires, q, x, q + |EncPayload(x)|);
    RecLength(r);
  }

  lemma RecRoundTrip(r: Rec)
    requires FitsRec(r)
    ensures Decodes(GetRec, EncRec(r), r)
  {
    forall b, p: nat | At(b, p, EncRec(r))
      ensures GetRec(b, p) == Got(r, p + |EncRec(r)|)
    {
      RecAt(r, b, p);
    }
  }

  ghost predicate FitsSlot(s: Slot) {
    s.idx < NUM_SLOTS && |s.recs| < TWO32 && forall r :: r in s.recs ==> FitsRec(r)
  }

  lemma RecsRoundTrip(recs: seq<Rec>, b: Bytes, p: nat)
    requires |recs| < TWO32 && (forall r :: r in recs ==> FitsRec(r)) && At(b, p, EncSeq(EncRec, recs))
    ensures GetNum(b, p, 4).Got? && GetSeq(GetRec, b, p) == Got(recs, p + |EncSeq(EncRec, recs)|)
  {
    forall i | 0 <= i < |recs|
      ensures Decodes(GetRec, EncRec(recs[i]), recs[i])
    {
      RecRoundTrip(recs[i]);
    }
    SeqRoundTrip(GetRec, EncRec, recs, b, p);
  }

  lemma SlotAt(s: Slot, e: Bytes, b: Bytes, p: nat)
    requires FitsSlot(s) && e == EncSeq(EncRec, s.recs) && At(b, p, [s.idx] + e)
    ensures GetSlot(b, p) == Got(s, p + 1 + |e|)
  {
    ByteAt(b, p, s.idx, e);
    RecsRoundTrip(s.recs, b, p + 1);
  }

  lemma SlotRoundTrip(s: Slot)
    requires FitsSlot(s)
    ensures Decodes(GetSlot, EncSlot(s), s)
  {
    forall b, p: nat | At(b, p, EncSlot(s))
      ensures GetSlot(b, p) == Got(s, p + |EncSlot(s)|)
    {
      SlotAt(s, EncSeq(EncRec, s.recs), b, p);
    }
  }

  lemma HeaderAt(magic: Bytes, x: Byte, e: Bytes, b: Bytes)
    requires At(b, 0, magic + ([x] + e))
    ensures |b| > |magic| && b[..|magic|] == magic && b[|magic|] == x && At(b, |magic| + 1, e)
  {
    AtSplit(b, 0, magic, [x] + e);
    ByteAt(b, |magic|, x, e);
  }

  lemma SlotsRoundTrip(slots: seq<Slot>, b: Bytes, p: nat)
    requires (forall s :: s in slots ==> FitsSlot(s)) && At(b, p, EncMany(EncSlot, slots))
    ensures GetMany(GetSlot, b, p, |slots|) == Got(slots, p + |EncMany(EncSlot, slots)|)
  {
    forall i | 0 <= i < |slots|
      ensures Decodes(GetSlot, EncSlot(slots[i]), slots[i])
    {
      SlotRoundTrip(slots[i]);
    }
    ManyRoundTrip(GetSlot, EncSlot, slots, b, p);
  }

  /** A file that holds a dump's body from its start is read as the dumped slots. */
  lemma BodyRoundTrip(magic: Bytes, slots: seq<Slot>, b: Bytes, p: nat, q: nat)
    requires |slots| < 256 && (forall s :: s in slots ==> FitsSlot(s))
    requires At(b, 0, magic + ([|slots|] + EncMany(EncSlot, slots)))
    requires p == |magic| + 1 && q == p + |EncMany(EncSlot, slots)|
    ensures |b| > |magic| && b[..|magic|] == magic && b[|magic|] == |slots|
    ensures GetMany(GetSlot, b, p, |slots|) == Got(slots, q)
  {
    HeaderAt(magic, |slots|, EncMany(EncSlot, slots), b);
    SlotsRoundTrip(slots, b, p);
  }

  lemma TrailerOk(body: Bytes, data: Bytes)
    requires data == body + Unpack(Crc32(body))
    ensures |data| == |body| + 4 && CrcOk(data) && At(data, 0, body)
  {
    assert data[..|body|] == body && data[|body|..] == Unpack(Crc32(body));
    UnpackPack(Crc32(body));
  }

  /** What was dumped is what is read, and the checksum of a dump is accepted. */
  lemma DumpScanned(slots: seq<Slot>)
    requires |slots| < 256 && forall s :: s in slots ==> FitsSlot(s)
    ensures Scanned(Dump(slots)) == Got(slots, |Body(slots)|)
  {
    TrailerOk(Body(slots), Dump(slots));
    BodyRoundTrip(MAGIC, slots, Dump(slots), |MAGIC| + 1, |Body(slots)|);
  }

  lemma ByteBits(x: bv32)
    requires x <= 0xFF
    ensures (x as int) < 256 && Word8(x as int) == x
  {
    Bits8Value(x as int);
    NarrowEqual(Bits8(x as int), x);
  }

  lemma NarrowEqual(a: bv8, x: bv32)
    requires a as int == x as int
    ensures a as bv32 == x
  {
    ToIntInjective(a as bv32, x);
  }

  lemma PackFour(a: Byte, b: Byte, c: Byte, d: Byte)
    ensures Pack([a, b, c, d]) == Xor(Word8(a), Up8(Xor(Word8(b), Up8(Xor(Word8(c), Up8(Xor(Word8(d), Up8(0))))))))
  {
    PackOne(d, []);
    PackOne(c, [d]);
    PackOne(b, [c, d]);
    PackOne(a, [b, c, d]);
    assert [a] + [b, c, d] == [a, b, c, d] && [b] + [c, d] == [b, c, d] && [c] + [d] == [c, d] && [d] + [] == [d];
  }

  lemma FourBytes(w: bv32)
    ensures Xor(w & 0xFF, Up8(Xor((w >> 8) & 0xFF, Up8(Xor((w >> 16) & 0xFF, Up8(Xor((w >> 24) & 0xFF, Up8(0))))))))
            == w
  {
  }

  lemma UnpackPack(w: bv32)
    ensures Pack(Unpack(w)) == w
  {
    ByteBits(w & 0xFF);
    ByteBits((w >> 8) & 0xFF);
    ByteBits((w >> 16) & 0xFF);
    ByteBits((w >> 24) & 0xFF);
    var m := Unpack(w);
    PackFour(m[0], m[1], m[2], m[3]);
    FourBytes(w);
  }

  /** A file is accepted exactly when the register ends at the residue. */
  lemma AcceptedIff(data: Bytes)
    requires |data| >= 4
    ensures CrcOk(data) <==> Serial(Step, ONES, data) == Residue()
  {
    var n := |data| - 4;
    assert data == data[..n] + data[n..];
    TrailerResidue(data[..n], data[n..]);
  }

  /**
  A file whose checksum was accepted is refused after any change confined to four consecutive bytes, wherever they
  lie: header, records, trailer or across their border.
  */
  lemma BurstRefused(pre: Bytes, m: Bytes, m': Bytes, post: Bytes)
    requires |m| == |m'| <= 4 && m != m' && Scanned(pre + m + post).Got?
    ensures Scanned(pre + m' + post).Fail?
  {
    AcceptedIff(pre + m + post);
    AcceptedIff(pre + m' + post);
    BurstSerial(pre, m, m', post);
  }

  /** In particular any one byte of a dump. */
  lemma DumpByteRefused(slots: seq<Slot>, i: nat, x: Byte)
    requires |slots| < 256 && (forall s :: s in slots ==> FitsSlot(s))
    requires i < |Dump(slots)| && x != Dump(slots)[i]
    ensures Scanned(Dump(slots)[i := x]).Fail?
  {
    DumpScanned(slots);
    ChangedByteRefused(Dump(slots), i, x);
  }

  lemma ChangedByteRefused(data: Bytes, i: nat, x: Byte)
    requires Scanned(data).Got? && i < |data| && x != data[i]
    ensures Scanned(data[i := x]).Fail?
  {
    var pre, post := data[..i], data[i + 1..];
    assert data == pre + [data[i]] + post && data[i := x] == pre + [x] + post;
    BurstRefused(pre, [data[i]], [x], post);
  }
}
