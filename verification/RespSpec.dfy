/**
The request parser of the RESP2 protocol as a function of the buffered bytes.  `Parse` is one attempt to take a
command off the head of the buffer, and `Drain` takes off all there are.
*/
module RespSpec {
  import opened Common

  const CR: Byte := 13
  const LF: Byte := 10
  const TAB: Byte := 9
  const SPACE: Byte := 32
  const DOLLAR: Byte := 36
  const STAR: Byte := 42
  const MAX_INLINE: nat := 65536
  const MAX_BULK: nat := 536870912
  const MAX_ELEMENTS: nat := 1024
  const LLONG_MAX: nat := 0x7FFF_FFFF_FFFF_FFFF

  type Argv = seq<Bytes>

  datatype ErrorKind =
    | TooBigBuffer
    | TooBigInline
    | InvalidMultibulkLength
    | InvalidBulkLength
    | ExpectedDollar(got: Byte)
    | ExpectedCrLf

  datatype Outcome = Done(argv: Argv, consumed: nat) | Incomplete | Error(error: ErrorKind)

  /** The first LF at or after `from`, or |b|. */
  function FindLf(b: Bytes, from: nat): (j: nat)
    requires from <= |b|
    ensures from <= j <= |b|
    ensures forall i :: from <= i < j ==> b[i] != LF
    ensures j < |b| ==> b[j] == LF
    decreases |b| - from
  {
    if from == |b| || b[from] == LF then from else FindLf(b, from + 1)
  }

  /** Where the line that starts at `from` and ends with the LF at j ends, without its CR. */
  function LineEnd(b: Bytes, from: nat, j: nat): (e: nat)
    requires from <= j < |b|
    ensures from <= e <= j
  {
    if j > from && b[j - 1] == CR then j - 1 else j
  }

  predicate IsDigit(c: Byte) {
    48 <= c <= 57
  }

  predicate AllDigits(s: Bytes) {
    forall i :: 0 <= i < |s| ==> IsDigit(s[i])
  }

  function Value(s: Bytes): nat
    requires AllDigits(s)
  {
    if s == [] then 0 else Value(s[..|s| - 1]) * 10 + (s[|s| - 1] - 48)
  }

  /** A length field: digits only, within `long long` and at most `limit`. */
  function Length(s: Bytes, limit: nat): (r: Option<nat>)
    ensures r.Some? ==> r.value <= limit
  {
    if s == [] || !AllDigits(s) || Value(s) > LLONG_MAX || Value(s) > limit then None else Some(Value(s))
  }

  predicate IsBlank(c: Byte) {
    c == SPACE || c == TAB
  }

  /** The first position at or after i whose byte is (not) a blank, or |s|. */
  function SkipWhile(s: Bytes, i: nat, blank: bool): (k: nat)
    requires i <= |s|
    ensures i <= k <= |s|
    ensures forall j :: i <= j < k ==> IsBlank(s[j]) == blank
    ensures k < |s| ==> IsBlank(s[k]) != blank
    decreases |s| - i
  {
    if i < |s| && IsBlank(s[i]) == blank then SkipWhile(s, i + 1, blank) else i
  }

  /** The maximal runs of non-blank bytes of s[i..]. */
  function Tokens(s: Bytes, i: nat): Argv
    requires i <= |s|
    decreases |s| - i
  {
    var start := SkipWhile(s, i, true);
    var end := SkipWhile(s, start, false);
    if start == |s| then [] else [s[start..end]] + Tokens(s, end)
  }

  datatype BulkOutcome = Bulk(payload: Bytes, next: nat) | BulkIncomplete | BulkError(error: ErrorKind)

  /** The payload of a bulk string at `start`, and the CRLF after it, once its length is read. */
  function ParsePayload(b: Bytes, start: nat, len: Option<nat>): (r: BulkOutcome)
    ensures r.Bulk? ==> start < r.next <= |b|
  {
    if len.None? then BulkError(InvalidBulkLength)
    else
      var tail := start + len.value;
      if |b| < tail + 2 then BulkIncomplete
      else if b[tail] != CR || b[tail + 1] != LF then BulkError(ExpectedCrLf)
      else Bulk(b[start..tail], tail + 2)
  }

  /** One bulk string at pos: its length line, its payload and the CRLF after it. */
  function ParseBulk(b: Bytes, pos: nat): (r: BulkOutcome)
    ensures r.Bulk? ==> pos < r.next <= |b| && FindLf(b, pos) + 1 < r.next
  {
    if pos >= |b| then BulkIncomplete
    else if b[pos] != DOLLAR then BulkError(ExpectedDollar(b[pos]))
    else
      var j := FindLf(b, pos);
      if j == |b| then (if |b| - pos > 32 then BulkError(InvalidBulkLength) else BulkIncomplete)
      else ParsePayload(b, j + 1, Length(b[pos + 1..LineEnd(b, pos, j)], MAX_BULK))
  }

  type BulkParser = (Bytes, nat) -> BulkOutcome

  /** k bulk strings starting at pos, each as `bulk` reads it, after those already in acc. */
  function ParseBulks(bulk: BulkParser, b: Bytes, pos: nat, k: nat, acc: Argv): Outcome
    decreases k
  {
    if k == 0 then Done(acc, pos)
    else
      match bulk(b, pos)
      case BulkIncomplete => Incomplete
      case BulkError(e) => Error(e)
      case Bulk(payload, next) => ParseBulks(bulk, b, next, k - 1, acc + [payload])
  }

  lemma {:induction false} BulksEnd(bulk: BulkParser, b: Bytes, pos: nat, k: nat, acc: Argv)
    requires pos <= |b| && forall p: nat :: bulk(b, p).Bulk? ==> p < bulk(b, p).next <= |b|
    ensures var r := ParseBulks(bulk, b, pos, k, acc); r.Done? ==> pos <= r.consumed <= |b|
    decreases k
  {
    if k > 0 && bulk(b, pos).Bulk? {
      BulksEnd(bulk, b, bulk(b, pos).next, k - 1, acc + [bulk(b, pos).payload]);
    }
  }

  /** The rest of a request, from pos on, once the count on its first line is read. */
  function ParseCounted(b: Bytes, pos: nat, count: Option<nat>): (r: Outcome)
    requires pos <= |b|
    ensures r.Done? ==> pos <= r.consumed <= |b|
  {
    match count
    case None => Error(InvalidMultibulkLength)
    case Some(n) =>
      BulksEnd(ParseBulk, b, pos, n, []);
      if n == 0 then Done([], pos) else ParseBulks(ParseBulk, b, pos, n, [])
  }

  function ParseMultiBulk(b: Bytes): (r: Outcome)
    requires b != [] && b[0] == STAR
    ensures r.Done? ==> FindLf(b, 0) < r.consumed <= |b|
  {
    var j := FindLf(b, 0);
    if j == |b| then (if |b| > 32 then Error(InvalidMultibulkLength) else Incomplete)
    else ParseCounted(b, j + 1, Length(b[1..LineEnd(b, 0, j)], MAX_ELEMENTS))
  }

  function ParseInline(b: Bytes): (r: Outcome)
    ensures r.Done? ==> 0 < r.consumed <= |b|
  {
    var j := FindLf(b, 0);
    if j == |b| then (if |b| > MAX_INLINE then Error(TooBigInline) else Incomplete)
    else Done(Tokens(b[..LineEnd(b, 0, j)], 0), j + 1)
  }

  function Parse(b: Bytes): (r: Outcome)
    ensures r.Done? ==> 0 < r.consumed <= |b|
  {
    if b == [] then Incomplete
    else if b[0] == STAR then ParseMultiBulk(b)
    else ParseInline(b)
  }

  /** The commands taken off a buffer, the bytes left and the error that stopped the loop, if any. */
  datatype Drained = Drained(cmds: seq<Argv>, rest: Bytes, error: Option<ErrorKind>)

  /** The loop that takes commands off the head of b as long as `parse` finds one. */
  function Drain(parse: Bytes -> Outcome, b: Bytes): Drained
    decreases |b|
  {
    var o := parse(b);
    if o.Error? then Drained([], b, Some(o.error))
    else if o.Incomplete? || !(0 < o.consumed <= |b|) then Drained([], b, None)
    else
      var r := Drain(parse, b[o.consumed..]);
      Drained([o.argv] + r.cmds, r.rest, r.error)
  }

  function ParseAll(b: Bytes): Drained {
    Drain(Parse, b)
  }
}
