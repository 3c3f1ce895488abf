/**
The snapshot format on values: what a dump of given records is, and what a reader finds in arbitrary bytes.
All integers are little-endian and unsigned.
*/
module RdbFormat {
  import opened Common
  import opened Float
  import opened Crc

  const MAGIC: Bytes := [84, 73, 78, 89, 82, 69, 68, 73, 83, 48, 49]
  const NUM_SLOTS := 16
  const TWO32: int := 0x1_0000_0000

  datatype LoadError = BadMagic | CrcMismatch | BadIndex | TruncatedEntry | UnknownType | TruncatedValue | Truncated

  /** A value read, with the position after it, or a failure. */
  datatype Got<+T> = Fail(why: LoadError) | Got(value: T, pos: nat)

  /** A value as it is written: collections in the order the writer met them. */
  datatype Payload =
    | Text(s: Bytes)
    | Fields(fields: seq<(Bytes, Bytes)>)
    | Items(items: seq<Bytes>)
    | Members(members: seq<Bytes>)
    | Scored(scored: seq<(Bytes, F64)>)

  datatype Saved = Saved(expires: U64, payload: Payload)
  type Rec = (Bytes, Saved)
  datatype Slot = Slot(idx: Byte, recs: seq<Rec>)

  // ---- writing ----

  /** The n low bytes of v. */
  function Word(v: nat, n: nat): (s: Bytes)
    ensures |s| == n
    decreases n, v
  {
    if n == 0 then [] else [v % 256] + Word(v / 256, n - 1)
  }

  function EncStr(s: Bytes): Bytes {
    Word(|s|, 4) + s
  }

  function EncField(p: (Bytes, Bytes)): Bytes {
    EncStr(p.0) + EncStr(p.1)
  }

  function EncScored(p: (Bytes, F64)): Bytes {
    EncStr(p.0) + Word(p.1, 8)
  }

  function EncMany<T>(enc: T -> Bytes, xs: seq<T>): Bytes {
    if xs == [] then [] else enc(xs[0]) + EncMany(enc, xs[1..])
  }

  function EncSeq<T>(enc: T -> Bytes, xs: seq<T>): Bytes {
    Word(|xs|, 4) + EncMany(enc, xs)
  }

  function Tag(p: Payload): Byte {
    match p
    case Text(_) => 0
    case Fields(_) => 1
    case Items(_) => 2
    case Members(_) => 3
    case Scored(_) => 4
  }

  function EncPayload(p: Payload): Bytes {
    match p
    case Text(s) => EncStr(s)
    case Fields(fields) => EncSeq(EncField, fields)
    case Items(items) => EncSeq(EncStr, items)
    case Members(members) => EncSeq(EncStr, members)
    case Scored(scored) => EncSeq(EncScored, scored)
  }

  function EncRec(r: Rec): Bytes {
    [Tag(r.1.payload)] + (EncStr(r.0) + (Word(r.1.expires, 8) + EncPayload(r.1.payload)))
  }

  function EncSlot(s: Slot): Bytes {
    [s.idx] + EncSeq(EncRec, s.recs)
  }

  function Body(slots: seq<Slot>): Bytes
    requires |slots| < 256
  {
    MAGIC + ([|slots|] + EncMany(EncSlot, slots))
  }

  /** The four bytes of a word, lowest first. */
  function Unpack(w: bv32): Bytes {
    [(w & 0xFF) as int, ((w >> 8) & 0xFF) as int, ((w >> 16) & 0xFF) as int, ((w >> 24) & 0xFF) as int]
  }

  function Dump(slots: seq<Slot>): Bytes
    requires |slots| < 256
  {
    Body(slots) + Unpack(Crc32(Body(slots)))
  }

  // ---- reading ----

  function WordOf(s: Bytes): nat {
    if s == [] then 0 else s[0] + 256 * WordOf(s[1..])
  }

  function GetRaw(b: Bytes, p: nat, n: nat): Got<Bytes> {
    if p + n > |b| then Fail(Truncated) else Got(b[p..p + n], p + n)
  }

  function GetNum(b: Bytes, p: nat, n: nat): Got<nat> {
    match GetRaw(b, p, n)
    case Fail(why) => Fail(why)
    case Got(s, q) => Got(WordOf(s), q)
  }

  function GetU64(b: Bytes, p: nat): Got<U64> {
    match GetNum(b, p, 8)
    case Fail(why) => Fail(why)
    case Got(v, q) => Got(v % TWO64, q)
  }

  function GetStr(b: Bytes, p: nat): Got<Bytes> {
    match GetNum(b, p, 4)
    case Fail(why) => Fail(why)
    case Got(n, q) => GetRaw(b, q, n)
  }

  function GetField(b: Bytes, p: nat): Got<(Bytes, Bytes)> {
    match GetStr(b, p)
    case Fail(why) => Fail(why)
    case Got(k, q) =>
      match GetStr(b, q)
      case Fail(why) => Fail(why)
      case Got(v, r) => Got((k, v), r)
  }

  function GetScored(b: Bytes, p: nat): Got<(Bytes, F64)> {
    match GetStr(b, p)
    case Fail(why) => Fail(why)
    case Got(m, q) =>
      match GetU64(b, q)
      case Fail(why) => Fail(why)
      case Got(v, r) => Got((m, v), r)
  }

  function Prepend<T>(x: T, g: Got<seq<T>>): Got<seq<T>> {
    match g
    case Fail(why) => Fail(why)
    case Got(xs, q) => Got([x] + xs, q)
  }

  function GetMany<T>(get: (Bytes, nat) -> Got<T>, b: Bytes, p: nat, n: nat): Got<seq<T>>
    decreases n
  {
    if n == 0 then Got([], p) else
      match get(b, p)
      case Fail(why) => Fail(why)
      case Got(x, q) => Prepend(x, GetMany(get, b, q, n - 1))
  }

  function GetSeq<T>(get: (Bytes, nat) -> Got<T>, b: Bytes, p: nat): Got<seq<T>> {
    match GetNum(b, p, 4)
    case Fail(why) => Fail(why)
    case Got(n, q) => GetMany(get, b, q, n)
  }

  function Wrap<S, T>(g: Got<S>, f: S -> T, why: LoadError): Got<T> {
    match g
    case Fail(_) => Fail(why)
    case Got(x, q) => Got(f(x), q)
  }

  function GetText(b: Bytes, p: nat): Got<Payload> {
    Wrap(GetStr(b, p), s => Text(s), TruncatedValue)
  }

  function GetFields(b: Bytes, p: nat): Got<Payload> {
    Wrap(GetSeq(GetField, b, p), xs => Fields(xs), TruncatedValue)
  }

  function GetItems(b: Bytes, p: nat): Got<Payload> {
    Wrap(GetSeq(GetStr, b, p), xs => Items(xs), TruncatedValue)
  }

  function GetMembers(b: Bytes, p: nat): Got<Payload> {
    Wrap(GetSeq(GetStr, b, p), xs => Members(xs), TruncatedValue)
  }

  function GetScores(b: Bytes, p: nat): Got<Payload> {
    Wrap(GetSeq(GetScored, b, p), xs => Scored(xs), TruncatedValue)
  }

  function GetUnknown(b: Bytes, p: nat): Got<Payload> {
    Fail(UnknownType)
  }

  /** How a value with this tag is read. */
  function Decoder(tag: Byte): (Bytes, nat) -> Got<Payload> {
    if tag == 0 then GetText else if tag == 1 then GetFields else if tag == 2 then GetItems
    else if tag == 3 then GetMembers else if tag == 4 then GetScores else GetUnknown
  }

  function GetPayload(b: Bytes, p: nat, tag: Byte): Got<Payload> {
    Decoder(tag)(b, p)
  }

  /** The tag, key and deadline of an entry. */
  function GetHead(b: Bytes, p: nat): Got<(Byte, Bytes, U64)> {
    if p >= |b| then Fail(TruncatedEntry) else
      match GetStr(b, p + 1)
      case Fail(_) => Fail(TruncatedEntry)
      case Got(key, q) =>
        match GetU64(b, q)
        case Fail(_) => Fail(TruncatedEntry)
        case Got(v, r) => Got((b[p], key, v), r)
  }

  function GetRec(b: Bytes, p: nat): Got<Rec> {
    match GetHead(b, p)
    case Fail(why) => Fail(why)
    case Got(head, q) =>
      match GetPayload(b, q, head.0)
      case Fail(why) => Fail(why)
      case Got(payload, r) => Got((head.1, Saved(head.2, payload)), r)
  }

  function GetSlot(b: Bytes, p: nat): Got<Slot> {
    if p >= |b| || GetNum(b, p + 1, 4).Fail? || b[p] >= NUM_SLOTS then Fail(BadIndex) else
      match GetSeq(GetRec, b, p + 1)
      case Fail(why) => Fail(why)
      case Got(recs, q) => Got(Slot(b[p], recs), q)
  }

  predicate CrcOk(data: Bytes)
    requires |data| >= 4
  {
    Crc32(data[..|data| - 4]) == Pack(data[|data| - 4..])
  }

  predicate HasMagic(data: Bytes) {
    |data| >= |MAGIC| + 5 && data[..|MAGIC|] == MAGIC
  }

  /** Everything the loader reads from a file. */
  function Scanned(data: Bytes): Got<seq<Slot>> {
    if !HasMagic(data) then Fail(BadMagic)
    else if !CrcOk(data) then Fail(CrcMismatch)
    else GetMany(GetSlot, data, |MAGIC| + 1, data[|MAGIC|])
  }
}
