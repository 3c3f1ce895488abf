/** The encoder of bulk strings and of arrays of them, which the parser inverts whatever bytes follow. */
module RespCodec {
  import opened Common
  import opened RespSpec
  import opened RespChunks

  const CRLF: Bytes := [CR, LF]

  /** Decimal digits, as "%zu" prints them. */
  function Decimal(n: nat): (s: Bytes)
    ensures s != [] && AllDigits(s)
  {
    if n < 10 then [48 + n] else Decimal(n / 10) + [48 + n % 10]
  }

  lemma {:induction false} DecimalValue(n: nat)
    ensures Value(Decimal(n)) == n
  {
    if n >= 10 {
      DecimalValue(n / 10);
      assert Decimal(n)[..|Decimal(n)| - 1] == Decimal(n / 10);
    } else {
      assert [48 + n][..0] == [];
    }
  }

  function Pow10(k: nat): nat {
    if k == 0 then 1 else 10 * Pow10(k - 1)
  }

  lemma {:induction false} DecimalLength(n: nat, k: nat)
    requires k > 0 && n < Pow10(k)
    ensures |Decimal(n)| <= k
  {
    if n >= 10 {
      DecimalLength(n / 10, k - 1);
    }
  }

  function BulkReply(s: Bytes): Bytes {
    [DOLLAR] + Decimal(|s|) + CRLF + s + CRLF
  }

  function ArrayHeader(n: nat): Bytes {
    [STAR] + Decimal(n) + CRLF
  }

  function BulkReplies(items: Argv): Bytes {
    if items == [] then [] else BulkReply(items[0]) + BulkReplies(items[1..])
  }

  function BulkArray(items: Argv): Bytes {
    ArrayHeader(|items|) + BulkReplies(items)
  }

  method AppendBulkReply(out: Bytes, s: Bytes) returns (r: Bytes)
    ensures r == out + BulkReply(s)
  {
    r := out + [DOLLAR];
    r := r + Decimal(|s|);
    r := r + CRLF;
    r := r + s;
    r := r + CRLF;
  }

  method AppendBulkArray(out: Bytes, items: Argv) returns (r: Bytes)
    ensures r == out + BulkArray(items)
  {
    r := out + ArrayHeader(|items|);
    for i := 0 to |items|
      invariant r + BulkReplies(items[i..]) == out + BulkArray(items)
    {
      var r0 := r;
      r := AppendBulkReply(r, items[i]);
      assert items[i..][0] == items[i] && items[i..][1..] == items[i + 1..];
      ConcatAssoc(r0, BulkReply(items[i]), BulkReplies(items[i + 1..]));
    }
    assert items[|items|..] == [];
  }

  /** The bytes from pos on start with x: then they are x, and y follows. */
  lemma DropFirst(b: Bytes, pos: nat, x: Bytes, y: Bytes)
    requires pos <= |b| && b[pos..] == x + y
    ensures pos + |x| <= |b| && b[pos..pos + |x|] == x && b[pos + |x|..] == y
  {
    var t := b[pos..];
    assert b[pos..pos + |x|] == t[..|x|] && b[pos + |x|..] == t[|x|..];
  }

  /** The line [mark] + d + CRLF at pos, up to its LF at j. */
  lemma LineParts(b: Bytes, pos: nat, mark: Byte, d: Bytes, rest: Bytes, j: nat)
    requires pos <= |b| && b[pos..] == [mark] + d + CRLF + rest && j == pos + |d| + 2
    ensures j < |b| && b[pos] == mark && b[pos + 1..j - 1] == d && b[j - 1] == CR && b[j] == LF && b[j + 1..] == rest
  {
    var t := b[pos..];
    assert t[1..1 + |d|] == d && t[1 + |d|] == CR && t[2 + |d|] == LF && t[3 + |d|..] == rest;
    assert b[pos + 1..j - 1] == t[1..1 + |d|] && b[j + 1..] == t[3 + |d|..];
  }

  lemma LineAt(b: Bytes, pos: nat, d: Bytes, j: nat)
    requires AllDigits(d) && j == pos + |d| + 2 && j < |b|
    requires b[pos] != LF && b[pos + 1..j - 1] == d && b[j - 1] == CR && b[j] == LF
    ensures FindLf(b, pos) == j && LineEnd(b, pos, j) == j - 1
  {
    forall i | pos <= i < j
      ensures b[i] != LF
    {
      if pos < i < j - 1 {
        assert b[i] == d[i - pos - 1] && IsDigit(d[i - pos - 1]);
      }
    }
    FindLfIs(b, pos, j);
  }

  lemma LengthIs(text: Bytes, n: nat, limit: nat)
    requires text == Decimal(n) && n <= limit <= LLONG_MAX
    ensures Length(text, limit) == Some(n)
  {
    DecimalValue(n);
  }

  /** The line at pos, which ends with the LF at j, carries the length n. */
  predicate LengthLine(b: Bytes, pos: nat, mark: Byte, n: nat, j: nat, limit: nat) {
    pos < |b| && b[pos] == mark && FindLf(b, pos) == j < |b| && pos < LineEnd(b, pos, j) &&
    Length(b[pos + 1..LineEnd(b, pos, j)], limit) == Some(n)
  }

  lemma LengthLineAt(b: Bytes, pos: nat, mark: Byte, n: nat, d: Bytes, j: nat, limit: nat)
    requires mark != LF && n <= limit <= LLONG_MAX && d == Decimal(n) && j == pos + |d| + 2 < |b|
    requires b[pos] == mark && b[pos + 1..j - 1] == d && b[j - 1] == CR && b[j] == LF
    ensures LengthLine(b, pos, mark, n, j, limit)
  {
    LineAt(b, pos, d, j);
    LengthIs(b[pos + 1..j - 1], n, limit);
  }

  /** What comes after a length line: the line is read as its number, and `rest` follows. */
  lemma ReadLine(b: Bytes, pos: nat, mark: Byte, n: nat, d: Bytes, rest: Bytes, j: nat, limit: nat)
    requires mark != LF && n <= limit <= LLONG_MAX && d == Decimal(n) && j == pos + |d| + 2
    requires pos <= |b| && b[pos..] == [mark] + d + CRLF + rest
    ensures LengthLine(b, pos, mark, n, j, limit) && b[j + 1..] == rest
  {
    LineParts(b, pos, mark, d, rest, j);
    LengthLineAt(b, pos, mark, n, d, j, limit);
  }

  /** A length line cut short holds no LF and is too short for the 32-byte check. */
  lemma LinePartial(b: Bytes, pos: nat, mark: Byte, n: nat, x: Bytes)
    requires mark != LF && n < Pow10(9) && x < [mark] + Decimal(n) + CRLF
    requires pos <= |b| && b[pos..] == x
    ensures FindLf(b, pos) == |b| <= pos + 32
    ensures x != [] ==> b[pos] == mark
  {
    var d := Decimal(n);
    var head := [mark] + d + CRLF;
    DecimalLength(n, 9);
    assert forall i :: 0 <= i < |d| ==> IsDigit(d[i]);
    forall i | pos <= i < |b|
      ensures b[i] != LF
    {
      assert b[i] == x[i - pos] == head[i - pos];
    }
    FindLfNone(b, pos);
  }

  /** A proper prefix of a concatenation falls short in the first part, or in the second. */
  lemma PrefixOfConcat(x: Bytes, a: Bytes, c: Bytes)
    requires x < a + c
    ensures if |x| < |a| then x < a else x == a + x[|a|..] && x[|a|..] < c
  {
    assert (a + c)[..|a|] == a && (a + c)[|a|..] == c;
    if |x| >= |a| {
      assert x[..|a|] == (a + c)[..|x|][..|a|];
      assert x[|a|..] == (a + c)[|a|..|x|] == c[..|x| - |a|];
    } else {
      assert x == (a + c)[..|x|] == a[..|x|];
    }
  }

  lemma BulkLayout(s: Bytes, d: Bytes, tail: Bytes)
    requires d == Decimal(|s|)
    ensures BulkReply(s) + tail == [DOLLAR] + d + CRLF + (s + CRLF + tail)
    ensures |BulkReply(s)| == |d| + 5 + |s|
  {
  }

  /** A bulk string whose length line ends at j and whose payload s and final CRLF are there. */
  lemma BulkAt(b: Bytes, pos: nat, j: nat, s: Bytes)
    requires LengthLine(b, pos, DOLLAR, |s|, j, MAX_BULK) && j + |s| + 2 < |b|
    requires b[j + 1..j + 1 + |s|] == s && b[j + 1 + |s|] == CR && b[j + 2 + |s|] == LF
    ensures ParseBulk(b, pos) == Bulk(s, j + 3 + |s|)
  {
  }

  lemma PayloadAt(b: Bytes, start: nat, s: Bytes, tail: Bytes)
    requires start <= |b| && b[start..] == s + CRLF + tail
    ensures |b| >= start + |s| + 2 && b[start..start + |s|] == s
    ensures b[start + |s|] == CR && b[start + |s| + 1] == LF
  {
    var rest := s + CRLF + tail;
    assert b[start..start + |s|] == rest[..|s|];
    assert b[start + |s|] == rest[|s|] && b[start + |s| + 1] == rest[|s| + 1];
  }

  lemma BulkRoundTrip(b: Bytes, pos: nat, s: Bytes, tail: Bytes)
    requires |s| <= MAX_BULK && pos <= |b| && b[pos..] == BulkReply(s) + tail
    ensures ParseBulk(b, pos) == Bulk(s, pos + |BulkReply(s)|)
  {
    var d := Decimal(|s|);
    var j := pos + |d| + 2;
    BulkLayout(s, d, tail);
    ReadLine(b, pos, DOLLAR, |s|, d, s + CRLF + tail, j, MAX_BULK);
    PayloadAt(b, j + 1, s, tail);
    BulkAt(b, pos, j, s);
  }

  lemma BulkWaits(b: Bytes, pos: nat, n: nat, j: nat)
    requires LengthLine(b, pos, DOLLAR, n, j, MAX_BULK) && |b| < j + n + 3
    ensures ParseBulk(b, pos) == BulkIncomplete
  {
  }

  /** A bulk string whose length line is complete but whose payload or final CRLF is not. */
  lemma PayloadPartial(b: Bytes, pos: nat, n: nat, d: Bytes, y: Bytes)
    requires n <= MAX_BULK && |y| < n + 2 && d == Decimal(n)
    requires pos <= |b| && b[pos..] == [DOLLAR] + d + CRLF + y
    ensures ParseBulk(b, pos) == BulkIncomplete
  {
    var j := pos + |d| + 2;
    ReadLine(b, pos, DOLLAR, n, d, y, j, MAX_BULK);
    BulkWaits(b, pos, n, j);
  }

  /** A bulk string cut short is reported as incomplete. */
  lemma BulkPartial(b: Bytes, pos: nat, s: Bytes, x: Bytes)
    requires |s| <= MAX_BULK && x < BulkReply(s) && pos <= |b| && b[pos..] == x
    ensures ParseBulk(b, pos) == BulkIncomplete
  {
    var d := Decimal(|s|);
    var head := [DOLLAR] + d + CRLF;
    assert BulkReply(s) == head + (s + CRLF);
    PrefixOfConcat(x, head, s + CRLF);
    if |x| < |head| {
      LinePartial(b, pos, DOLLAR, |s|, x);
    } else {
      PayloadPartial(b, pos, |s|, d, x[|head|..]);
    }
  }

  predicate Encodable(items: Argv) {
    forall i :: 0 <= i < |items| ==> |items[i]| <= MAX_BULK
  }

  lemma BulksStep(b: Bytes, pos: nat, k: nat, acc: Argv, payload: Bytes, next: nat)
    requires k > 0 && ParseBulk(b, pos) == Bulk(payload, next)
    ensures ParseBulks(ParseBulk, b, pos, k, acc) == ParseBulks(ParseBulk, b, next, k - 1, acc + [payload])
  {
  }

  lemma BulksStop(b: Bytes, pos: nat, k: nat, acc: Argv)
    requires k > 0 && ParseBulk(b, pos) == BulkIncomplete
    ensures ParseBulks(ParseBulk, b, pos, k, acc) == Incomplete
  {
  }

  /** Moving the first item of a list to the end of the accumulated ones. */
  lemma ShiftItem(acc: Argv, items: Argv)
    requires items != []
    ensures (acc + [items[0]]) + items[1..] == acc + items
  {
  }

  lemma {:induction false} BulksRoundTrip(b: Bytes, pos: nat, items: Argv, k: nat, acc: Argv, tail: Bytes)
    requires Encodable(items) && pos <= |b| && b[pos..] == BulkReplies(items) + tail && k == |items|
    ensures ParseBulks(ParseBulk, b, pos, k, acc) == Done(acc + items, pos + |BulkReplies(items)|)
    decreases k
  {
    if items == [] {
      assert acc + items == acc;
    } else {
      var first, more := BulkReply(items[0]), BulkReplies(items[1..]);
      var next, acc1 := pos + |first|, acc + [items[0]];
      ConcatAssoc(first, more, tail);
      BulkRoundTrip(b, pos, items[0], more + tail);
      BulksStep(b, pos, k, acc, items[0], next);
      DropFirst(b, pos, first, more + tail);
      BulksRoundTrip(b, next, items[1..], k - 1, acc1, tail);
      ShiftItem(acc, items);
    }
  }

  /** The cut falls in the first bulk string that is left. */
  lemma BulksPartialHere(b: Bytes, pos: nat, s: Bytes, k: nat, acc: Argv, x: Bytes)
    requires |s| <= MAX_BULK && x < BulkReply(s) && pos <= |b| && b[pos..] == x && k > 0
    ensures ParseBulks(ParseBulk, b, pos, k, acc) == Incomplete
  {
    BulkPartial(b, pos, s, x);
    BulksStop(b, pos, k, acc);
  }

  /** The cut falls further on: the first bulk string is read and the rest of the buffer is left. */
  lemma BulksPartialLater(b: Bytes, pos: nat, s: Bytes, k: nat, acc: Argv, acc1: Argv, y: Bytes, next: nat)
    requires |s| <= MAX_BULK && pos <= |b| && b[pos..] == BulkReply(s) + y && k > 0
    requires acc1 == acc + [s] && next == pos + |BulkReply(s)|
    ensures next <= |b| && b[next..] == y
    ensures ParseBulks(ParseBulk, b, pos, k, acc) == ParseBulks(ParseBulk, b, next, k - 1, acc1)
  {
    BulkRoundTrip(b, pos, s, y);
    BulksStep(b, pos, k, acc, s, next);
    DropFirst(b, pos, BulkReply(s), y);
  }

  lemma {:induction false} BulksPartial(b: Bytes, pos: nat, items: Argv, k: nat, acc: Argv, x: Bytes)
    requires Encodable(items) && x < BulkReplies(items) && pos <= |b| && b[pos..] == x && k == |items|
    ensures ParseBulks(ParseBulk, b, pos, k, acc) == Incomplete
    decreases k
  {
    var first, more := BulkReply(items[0]), BulkReplies(items[1..]);
    PrefixOfConcat(x, first, more);
    if |x| < |first| {
      BulksPartialHere(b, pos, items[0], k, acc, x);
    } else {
      var y, next, acc1 := x[|first|..], pos + |first|, acc + [items[0]];
      BulksPartialLater(b, pos, items[0], k, acc, acc1, y, next);
      BulksPartial(b, next, items[1..], k - 1, acc1, y);
    }
  }

  /** A request the server accepts: 1 to 1024 strings, each within the bulk limit. */
  predicate Request(items: Argv) {
    1 <= |items| <= MAX_ELEMENTS && Encodable(items)
  }

  lemma RequestAt(b: Bytes, n: nat, j: nat)
    requires LengthLine(b, 0, STAR, n, j, MAX_ELEMENTS) && n > 0
    ensures Parse(b) == ParseBulks(ParseBulk, b, j + 1, n, [])
  {
  }

  /** With its count line read, a request is its bulk strings. */
  lemma ParseAfterHeader(b: Bytes, n: nat, body: Bytes)
    requires 1 <= n <= MAX_ELEMENTS && b == ArrayHeader(n) + body
    ensures Parse(b) == ParseBulks(ParseBulk, b, |ArrayHeader(n)|, n, []) && b[|ArrayHeader(n)|..] == body
  {
    var d := Decimal(n);
    assert b[0..] == [STAR] + d + CRLF + body;
    ReadLine(b, 0, STAR, n, d, body, |d| + 2, MAX_ELEMENTS);
    RequestAt(b, n, |d| + 2);
  }

  /** Round trip: parsing an encoded request followed by anything returns it and consumes exactly its bytes. */
  lemma RequestRoundTrip(items: Argv, tail: Bytes)
    requires Request(items)
    ensures Parse(BulkArray(items) + tail) == Done(items, |BulkArray(items)|)
  {
    var b, head, n := BulkArray(items) + tail, ArrayHeader(|items|), |items|;
    ConcatAssoc(head, BulkReplies(items), tail);
    ParseAfterHeader(b, n, BulkReplies(items) + tail);
    BulksRoundTrip(b, |head|, items, n, [], tail);
    assert [] + items == items;
  }

  /** A request cut short anywhere is incomplete, never an error. */
  lemma RequestPartial(items: Argv, x: Bytes)
    requires Request(items) && x < BulkArray(items)
    ensures Parse(x) == Incomplete
  {
    var head, n := ArrayHeader(|items|), |items|;
    PrefixOfConcat(x, head, BulkReplies(items));
    if |x| < |head| {
      assert x[0..] == x;
      LinePartial(x, 0, STAR, n, x);
    } else {
      var y := x[|head|..];
      ParseAfterHeader(x, n, y);
      BulksPartial(x, |head|, items, n, [], y);
    }
  }
}
