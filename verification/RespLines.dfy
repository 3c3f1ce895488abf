/**
When chunking cannot matter.  The parser refuses a line it has not seen the end of once too many bytes of it are
buffered, so a cut inside a long line raises an error that the whole line does not.  These guards are the only
reason: a stream is free of errors under every chunking exactly when it parses at once and has no long line.
*/
module RespLines {
  import opened Common
  import opened RespSpec
  import opened RespChunks

  /** The most bytes of a length line that may be buffered without its end. */
  const MAX_LINE: nat := 32

  predicate ShortLine(b: Bytes, pos: nat) {
    pos <= |b| ==> FindLf(b, pos) - pos <= MAX_LINE
  }

  predicate ShortBulks(bulk: BulkParser, b: Bytes, pos: nat, k: nat)
    decreases k
  {
    k == 0 ||
    (ShortLine(b, pos) &&
     match bulk(b, pos)
     case Bulk(_, next) => ShortBulks(bulk, b, next, k - 1)
     case _ => true)
  }

  predicate ShortRequest(b: Bytes)
    requires b != [] && b[0] == STAR
  {
    var j := FindLf(b, 0);
    j <= MAX_LINE &&
    (j < |b| ==>
      match Length(b[1..LineEnd(b, 0, j)], MAX_ELEMENTS)
      case None => true
      case Some(count) => ShortBulks(ParseBulk, b, j + 1, count))
  }

  /** The command at the head of b has no line that a cut could make too long. */
  predicate ShortCommand(b: Bytes) {
    b == [] || (if b[0] == STAR then ShortRequest(b) else FindLf(b, 0) <= MAX_INLINE)
  }

  /** No command of the stream has one. */
  predicate ShortLines(b: Bytes)
    decreases |b|
  {
    ShortCommand(b) && (Parse(b).Done? ==> ShortLines(b[Parse(b).consumed..]))
  }

  // ---- an error on a part is an error on the whole, but for the length guards ----

  lemma FindLfPrefix(a: Bytes, b: Bytes, from: nat)
    requires a <= b && from <= |a|
    ensures FindLf(a, from) == if FindLf(b, from) < |a| then FindLf(b, from) else |a|
  {
    var j := FindLf(b, from);
    if j < |a| {
      FindLfIs(a, from, j);
    } else {
      FindLfNone(a, from);
    }
  }

  lemma SliceOfPrefix(a: Bytes, b: Bytes, i: nat, j: nat)
    requires a <= b && i <= j <= |a|
    ensures a[i..j] == b[i..j]
  {
  }

  lemma SamePayload(a: Bytes, b: Bytes, start: nat, len: Option<nat>)
    requires a <= b
    ensures !ParsePayload(a, start, len).BulkIncomplete? ==> ParsePayload(b, start, len) == ParsePayload(a, start, len)
    ensures ParsePayload(b, start, len).Bulk? && ParsePayload(b, start, len).next <= |a| ==>
            ParsePayload(a, start, len) == ParsePayload(b, start, len)
  {
    if len.Some? && start + len.value <= |a| {
      SliceOfPrefix(a, b, start, start + len.value);
    }
  }

  /** What was read of a part is read of the whole. */
  lemma BulkOnWhole(a: Bytes, b: Bytes, pos: nat)
    requires a <= b && ParseBulk(a, pos).Bulk?
    ensures ParseBulk(b, pos) == ParseBulk(a, pos)
  {
    var j := FindLf(a, pos);
    var e := LineEnd(a, pos, j);
    FindLfPrefix(a, b, pos);
    SliceOfPrefix(a, b, pos + 1, e);
    SamePayload(a, b, j + 1, Length(a[pos + 1..e], MAX_BULK));
  }

  /** What was read of the whole is read of a part that reaches far enough. */
  lemma BulkOnPart(a: Bytes, b: Bytes, pos: nat)
    requires a <= b && ParseBulk(b, pos).Bulk? && ParseBulk(b, pos).next <= |a|
    ensures ParseBulk(a, pos) == ParseBulk(b, pos)
  {
    var j := FindLf(b, pos);
    var e := LineEnd(b, pos, j);
    FindLfPrefix(a, b, pos);
    SliceOfPrefix(a, b, pos + 1, e);
    SamePayload(a, b, j + 1, Length(b[pos + 1..e], MAX_BULK));
  }

  lemma BulkErrorStays(a: Bytes, b: Bytes, pos: nat)
    requires a <= b && ShortLine(b, pos) && ParseBulk(a, pos).BulkError?
    ensures ParseBulk(b, pos) == ParseBulk(a, pos)
  {
    FindLfPrefix(a, b, pos);
    var j := FindLf(a, pos);
    if a[pos] == DOLLAR {
      SliceOfPrefix(a, b, pos + 1, LineEnd(a, pos, j));
      SamePayload(a, b, j + 1, Length(a[pos + 1..LineEnd(a, pos, j)], MAX_BULK));
    }
  }

  /** How a reader of bulk strings behaves on a and on a longer b: what ParseBulk does on a prefix. */
  ghost predicate Agrees(bulk: BulkParser, a: Bytes, b: Bytes) {
    forall p: nat {:trigger bulk(a, p)} {:trigger bulk(b, p)} ::
      && (bulk(b, p).Bulk? ==> p < bulk(b, p).next <= |b|)
      && (bulk(a, p).Bulk? ==> bulk(b, p) == bulk(a, p))
      && (bulk(b, p).Bulk? && bulk(b, p).next <= |a| ==> bulk(a, p) == bulk(b, p))
      && (bulk(a, p).BulkError? && ShortLine(b, p) ==> bulk(b, p) == bulk(a, p))
  }

  lemma PrefixAgrees(a: Bytes, b: Bytes)
    requires a <= b
    ensures Agrees(ParseBulk, a, b)
  {
    forall p: nat
      ensures ParseBulk(a, p).Bulk? ==> ParseBulk(b, p) == ParseBulk(a, p)
      ensures ParseBulk(b, p).Bulk? && ParseBulk(b, p).next <= |a| ==> ParseBulk(a, p) == ParseBulk(b, p)
      ensures ParseBulk(a, p).BulkError? && ShortLine(b, p) ==> ParseBulk(b, p) == ParseBulk(a, p)
    {
      if ParseBulk(a, p).Bulk? {
        BulkOnWhole(a, b, p);
      }
      if ParseBulk(b, p).Bulk? && ParseBulk(b, p).next <= |a| {
        BulkOnPart(a, b, p);
      }
      if ParseBulk(a, p).BulkError? && ShortLine(b, p) {
        BulkErrorStays(a, b, p);
      }
    }
  }

  lemma {:induction false} BulksErrorStays(bulk: BulkParser, a: Bytes, b: Bytes, pos: nat, k: nat, acc: Argv)
    requires Agrees(bulk, a, b) && ShortBulks(bulk, b, pos, k) && ParseBulks(bulk, a, pos, k, acc).Error?
    ensures ParseBulks(bulk, b, pos, k, acc).Error?
    decreases k
  {
    var r := bulk(a, pos);
    if r.Bulk? {
      BulksErrorStays(bulk, a, b, r.next, k - 1, acc + [r.payload]);
    }
  }

  lemma CountedErrorStays(a: Bytes, b: Bytes, pos: nat, count: Option<nat>)
    requires a <= b && pos <= |a| && ParseCounted(a, pos, count).Error?
    requires count.Some? ==> ShortBulks(ParseBulk, b, pos, count.value)
    ensures ParseCounted(b, pos, count).Error?
  {
    if count.Some? {
      PrefixAgrees(a, b);
      BulksErrorStays(ParseBulk, a, b, pos, count.value, []);
    }
  }

  lemma RequestErrorStays(a: Bytes, b: Bytes, j: nat)
    requires a <= b && a != [] && a[0] == STAR && ShortRequest(b) && ParseMultiBulk(a).Error? && j == FindLf(a, 0)
    ensures ParseMultiBulk(b).Error?
  {
    FindLfPrefix(a, b, 0);
    SliceOfPrefix(a, b, 1, LineEnd(a, 0, j));
    CountedErrorStays(a, b, j + 1, Length(a[1..LineEnd(a, 0, j)], MAX_ELEMENTS));
  }

  lemma ErrorStays(a: Bytes, b: Bytes)
    requires a <= b && ShortCommand(b) && Parse(a).Error?
    ensures Parse(b).Error?
  {
    if a[0] == STAR {
      RequestErrorStays(a, b, FindLf(a, 0));
    } else {
      FindLfPrefix(a, b, 0);
    }
  }

  // ---- a long line makes some cut fail ----

  lemma BulkTooLong(b: Bytes, pos: nat)
    requires !ShortLine(b, pos) && !ParseBulk(b, pos).BulkError?
    ensures ParseBulk(b[..FindLf(b, pos)], pos).BulkError?
  {
    FindLfPrefix(b[..FindLf(b, pos)], b, pos);
  }

  lemma {:induction false} BulksTooLong(b: Bytes, pos: nat, k: nat, acc: Argv) returns (i: nat)
    requires pos <= |b| && !ShortBulks(ParseBulk, b, pos, k) && !ParseBulks(ParseBulk, b, pos, k, acc).Error?
    ensures pos <= i <= |b| && ParseBulks(ParseBulk, b[..i], pos, k, acc).Error?
    decreases k
  {
    if !ShortLine(b, pos) {
      i := FindLf(b, pos);
      BulkTooLong(b, pos);
    } else {
      var r := ParseBulk(b, pos);
      i := BulksTooLong(b, r.next, k - 1, acc + [r.payload]);
      BulkOnPart(b[..i], b, pos);
    }
  }

  lemma RequestTooLong(b: Bytes) returns (i: nat)
    requires b != [] && b[0] == STAR && !ShortRequest(b) && !Parse(b).Error?
    ensures i <= |b| && Parse(b[..i]).Error?
  {
    var j := FindLf(b, 0);
    if j > MAX_LINE {
      i := j;
      FindLfPrefix(b[..i], b, 0);
    } else {
      var count := Length(b[1..LineEnd(b, 0, j)], MAX_ELEMENTS).value;
      i := BulksTooLong(b, j + 1, count, []);
      FindLfPrefix(b[..i], b, 0);
      SliceOfPrefix(b[..i], b, 1, LineEnd(b, 0, j));
    }
  }

  lemma CommandTooLong(b: Bytes) returns (i: nat)
    requires !ShortCommand(b) && !Parse(b).Error?
    ensures i <= |b| && Parse(b[..i]).Error?
  {
    if b[0] == STAR {
      i := RequestTooLong(b);
    } else {
      i := FindLf(b, 0);
      FindLfPrefix(b[..i], b, 0);
    }
  }

  // ---- a command needs no byte after it ----

  lemma {:induction false} BulksExact(bulk: BulkParser, a: Bytes, b: Bytes, pos: nat, k: nat, acc: Argv)
    requires Agrees(bulk, a, b) && pos <= |b|
    requires var r := ParseBulks(bulk, b, pos, k, acc); r.Done? && r.consumed <= |a|
    ensures ParseBulks(bulk, a, pos, k, acc) == ParseBulks(bulk, b, pos, k, acc)
    decreases k
  {
    if k > 0 {
      var r := bulk(b, pos);
      BulksEnd(bulk, b, r.next, k - 1, acc + [r.payload]);
      BulksExact(bulk, a, b, r.next, k - 1, acc + [r.payload]);
    }
  }

  lemma CountedExact(a: Bytes, b: Bytes, pos: nat, count: Option<nat>)
    requires a <= b && pos <= |a| && ParseCounted(b, pos, count).Done? && ParseCounted(b, pos, count).consumed <= |a|
    ensures ParseCounted(a, pos, count) == ParseCounted(b, pos, count)
  {
    if count.value > 0 {
      PrefixAgrees(a, b);
      BulksExact(ParseBulk, a, b, pos, count.value, []);
    }
  }

  lemma ParseExact(a: Bytes, b: Bytes)
    requires a <= b && Parse(b).Done? && Parse(b).consumed <= |a|
    ensures Parse(a) == Parse(b)
  {
    var j := FindLf(b, 0);
    FindLfPrefix(a, b, 0);
    if b[0] == STAR {
      SliceOfPrefix(a, b, 1, LineEnd(b, 0, j));
      CountedExact(a, b, j + 1, Length(b[1..LineEnd(b, 0, j)], MAX_ELEMENTS));
    } else {
      SliceOfPrefix(a, b, 0, LineEnd(b, 0, j));
    }
  }

  // ---- over the whole stream ----

  lemma PrefixParse(a: Bytes, b: Bytes)
    requires a <= b && Parse(a).Done?
    ensures Parse(b) == Parse(a)
  {
    assert b == a + b[|a|..];
    ParseStable(a, b[|a|..]);
  }

  lemma {:induction false} ShortIsEnough(w: Bytes, x: Bytes)
    requires x <= w && ShortLines(w) && ParseAll(w).error.None?
    ensures ParseAll(x).error.None?
    decreases |w|
  {
    if Parse(x).Error? {
      ErrorStays(x, w);
    } else if Parse(x).Done? {
      PrefixParse(x, w);
      var n := Parse(w).consumed;
      ShortIsEnough(w[n..], x[n..]);
    }
  }

  lemma RestPrefixesOk(w: Bytes)
    requires PrefixesOk(w) && Parse(w).Done?
    ensures PrefixesOk(w[Parse(w).consumed..])
  {
    var n := Parse(w).consumed;
    forall i | 0 <= i <= |w[n..]|
      ensures ParseAll(w[n..][..i]).error.None?
    {
      var x := w[..n + i];
      ParseExact(x, w);
      assert x[n..] == w[n..][..i];
      assert ParseAll(x).error.None?;
    }
  }

  lemma {:induction false} ShortIsNeeded(w: Bytes)
    requires PrefixesOk(w)
    ensures ShortLines(w)
    decreases |w|
  {
    assert w[..|w|] == w;
    if !ShortCommand(w) {
      var i := CommandTooLong(w);
    } else if Parse(w).Done? {
      RestPrefixesOk(w);
      ShortIsNeeded(w[Parse(w).consumed..]);
    }
  }

  lemma PrefixesOkIff(w: Bytes)
    ensures PrefixesOk(w) <==> ParseAll(w).error.None? && ShortLines(w)
  {
    assert w[..|w|] == w;
    if PrefixesOk(w) {
      ShortIsNeeded(w);
    }
    if ParseAll(w).error.None? && ShortLines(w) {
      forall i | 0 <= i <= |w|
        ensures ParseAll(w[..i]).error.None?
      {
        ShortIsEnough(w, w[..i]);
      }
    }
  }

  /**
  Every chunking of a stream is free of errors exactly when the stream fits the buffer, parses at once and has no
  long line.
  */
  lemma ErrorFreeIff(w: Bytes)
    ensures ChunkingsOk(w) <==> |w| <= MAX_BULK && ParseAll(w).error.None? && ShortLines(w)
  {
    PrefixesOkIff(w);
    if |w| <= MAX_BULK {
      ErrorFreeChunkings(w);
    } else {
      OneChunk(w);
    }
  }

  lemma OneChunk(w: Bytes)
    ensures Concat([w]) == w && FeedAll(EMPTY, [w]) == Feed(EMPTY, w)
  {
    assert [w][..0] == [] && [] + w == w;
    assert [] + Feed(EMPTY, w).1 == Feed(EMPTY, w).1;
  }
}
