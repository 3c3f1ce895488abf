/**
A pipelined stream of requests, of any length and cut in any way, is decoded exactly and without error as long as no
call brings the buffer over its limit.  The argument holds for every framing: an encoding `enc` of the requests in `ok`
that `parse` inverts.
*/
module RespStreams {
  import opened Common
  import opened RespSpec
  import opened RespChunks
  import opened RespCodec
  import opened RespLines

  /** `parse` undoes `enc` whatever follows, and waits for more bytes on every proper prefix of an encoding. */
  ghost predicate Framing(enc: Argv -> Bytes, parse: Bytes -> Outcome, ok: Argv -> bool) {
    && (forall r :: ok(r) ==> |enc(r)| > 0)
    && (forall r, t {:trigger parse(enc(r) + t)} :: ok(r) ==> parse(enc(r) + t) == Done(r, |enc(r)|))
    && (forall r, x {:trigger enc(r), parse(x)} :: ok(r) && x < enc(r) ==> parse(x) == Incomplete)
    && parse([]) == Incomplete
  }

  lemma RequestFraming()
    ensures Framing(BulkArray, Parse, Request)
  {
    forall r, t | Request(r)
      ensures Parse(BulkArray(r) + t) == Done(r, |BulkArray(r)|)
    {
      RequestRoundTrip(r, t);
    }
    forall r, x | Request(r) && x < BulkArray(r)
      ensures Parse(x) == Incomplete
    {
      RequestPartial(r, x);
    }
  }

  function Stream(enc: Argv -> Bytes, reqs: seq<Argv>): Bytes {
    if reqs == [] then [] else enc(reqs[0]) + Stream(enc, reqs[1..])
  }

  lemma {:induction false} StreamConcat(enc: Argv -> Bytes, p: seq<Argv>, q: seq<Argv>)
    ensures Stream(enc, p + q) == Stream(enc, p) + Stream(enc, q)
  {
    if p == [] {
      assert p + q == q;
    } else {
      assert (p + q)[0] == p[0] && (p + q)[1..] == p[1..] + q;
      StreamConcat(enc, p[1..], q);
      ConcatAssoc(enc(p[0]), Stream(enc, p[1..]), Stream(enc, q));
    }
  }

  predicate All(ok: Argv -> bool, reqs: seq<Argv>) {
    forall i :: 0 <= i < |reqs| ==> ok(reqs[i])
  }

  /** The encoding of request k; past the end one byte, of which only the empty sequence is a proper prefix. */
  function Pending(enc: Argv -> Bytes, reqs: seq<Argv>, k: nat): Bytes {
    if k < |reqs| then enc(reqs[k]) else [LF]
  }

  /** x is the first k requests of the stream followed by y, a part of the next one. */
  predicate Split(enc: Argv -> Bytes, reqs: seq<Argv>, x: Bytes, k: nat, y: Bytes) {
    k <= |reqs| && x == Stream(enc, reqs[..k]) + y && y < Pending(enc, reqs, k)
  }

  lemma SplitCons(enc: Argv -> Bytes, reqs: seq<Argv>, x: Bytes, k: nat, y: Bytes)
    requires reqs != [] && Split(enc, reqs[1..], x, k, y)
    ensures Split(enc, reqs, enc(reqs[0]) + x, k + 1, y)
    ensures [reqs[0]] + reqs[1..][..k] == reqs[..k + 1]
  {
    assert reqs[..k + 1][1..] == reqs[1..][..k];
    ConcatAssoc(enc(reqs[0]), Stream(enc, reqs[1..][..k]), y);
  }

  /** A prefix of a concatenation ends in the first part or goes on into the second. */
  lemma PrefixCases(x: Bytes, a: Bytes, c: Bytes)
    requires x <= a + c
    ensures if |x| < |a| then x < a else x == a + x[|a|..] && x[|a|..] <= c
  {
    if x == a + c {
      assert x[|a|..] == c;
    } else {
      PrefixOfConcat(x, a, c);
    }
  }

  /** Parsing any prefix of a stream yields its complete requests and keeps the part of the next one. */
  lemma {:induction false} DrainPrefix(enc: Argv -> Bytes, parse: Bytes -> Outcome, ok: Argv -> bool,
                                       reqs: seq<Argv>, x: Bytes)
    returns (k: nat, y: Bytes)
    requires Framing(enc, parse, ok) && All(ok, reqs) && x <= Stream(enc, reqs)
    ensures Split(enc, reqs, x, k, y) && Drain(parse, x) == Drained(reqs[..k], y, None)
    decreases |reqs|
  {
    if reqs == [] {
      k, y := 0, [];
    } else {
      var first := enc(reqs[0]);
      PrefixCases(x, first, Stream(enc, reqs[1..]));
      if |x| < |first| {
        k, y := 0, x;
      } else {
        var z := x[|first|..];
        assert x[|first|..] == z && parse(first + z) == Done(reqs[0], |first|);
        k, y := DrainPrefix(enc, parse, ok, reqs[1..], z);
        SplitCons(enc, reqs, z, k, y);
        k := k + 1;
      }
    }
  }

  /** The bytes still to come after a split extend the part held back to a prefix of the remaining stream. */
  lemma Remaining(enc: Argv -> Bytes, reqs: seq<Argv>, x: Bytes, k: nat, y: Bytes, c: Bytes)
    requires Split(enc, reqs, x, k, y) && x + c <= Stream(enc, reqs)
    ensures y + c <= Stream(enc, reqs[k..])
  {
    assert reqs == reqs[..k] + reqs[k..];
    StreamConcat(enc, reqs[..k], reqs[k..]);
    ConcatAssoc(Stream(enc, reqs[..k]), y, c);
    StripPrefix(Stream(enc, reqs[..k]), y + c, Stream(enc, reqs[k..]));
  }

  lemma StreamOfPrefix(enc: Argv -> Bytes, reqs: seq<Argv>, k: nat, k1: nat)
    requires k + k1 <= |reqs|
    ensures reqs[..k] + reqs[k..][..k1] == reqs[..k + k1]
    ensures Stream(enc, reqs[..k + k1]) == Stream(enc, reqs[..k]) + Stream(enc, reqs[k..][..k1])
  {
    assert reqs[..k] + reqs[k..][..k1] == reqs[..k + k1];
    StreamConcat(enc, reqs[..k], reqs[k..][..k1]);
  }

  lemma SplitAppend(enc: Argv -> Bytes, reqs: seq<Argv>, x: Bytes, k: nat, y: Bytes, c: Bytes, k1: nat, y1: Bytes,
                    xc: Bytes, k': nat)
    requires Split(enc, reqs, x, k, y) && Split(enc, reqs[k..], y + c, k1, y1) && xc == x + c && k' == k + k1
    ensures Split(enc, reqs, xc, k', y1) && reqs[..k] + reqs[k..][..k1] == reqs[..k']
  {
    var a, d := Stream(enc, reqs[..k]), Stream(enc, reqs[k..][..k1]);
    StreamOfPrefix(enc, reqs, k, k1);
    ConcatAssoc(a, y, c);
    ConcatAssoc(a, d, y1);
    assert Pending(enc, reqs, k + k1) == Pending(enc, reqs[k..], k1);
  }

  lemma DrainRest(enc: Argv -> Bytes, parse: Bytes -> Outcome, ok: Argv -> bool, reqs: seq<Argv>, k: nat, x: Bytes)
    returns (k1: nat, y: Bytes)
    requires Framing(enc, parse, ok) && All(ok, reqs) && k <= |reqs| && x <= Stream(enc, reqs[k..])
    ensures Split(enc, reqs[k..], x, k1, y) && Drain(parse, x) == Drained(reqs[k..][..k1], y, None)
  {
    k1, y := DrainPrefix(enc, parse, ok, reqs[k..], x);
  }

  /** One more chunk: the part held back and the chunk are a prefix of the remaining stream. */
  lemma DrainOneMore(enc: Argv -> Bytes, parse: Bytes -> Outcome, ok: Argv -> bool,
                     reqs: seq<Argv>, before: Bytes, last: Bytes, k: nat, buf: Bytes)
    returns (k': nat, buf': Bytes, mid: seq<Argv>)
    requires Framing(enc, parse, ok) && All(ok, reqs)
    requires Split(enc, reqs, before, k, buf) && before + last <= Stream(enc, reqs)
    ensures Split(enc, reqs, before + last, k', buf') && reqs[..k] + mid == reqs[..k']
    ensures Drain(parse, buf + last) == Drained(mid, buf', None)
  {
    Remaining(enc, reqs, before, k, buf, last);
    var k1;
    k1, buf' := DrainRest(enc, parse, ok, reqs, k, buf + last);
    k', mid := k + k1, reqs[k..][..k1];
    SplitAppend(enc, reqs, before, k, buf, last, k1, buf', before + last, k');
  }

  /** The bytes held back after these calls. */
  function Held(chunks: seq<Bytes>): nat {
    |FeedAll(EMPTY, chunks).0.buf|
  }

  predicate RoomFor(held: seq<Bytes> -> nat, chunks: seq<Bytes>) {
    forall i :: 0 <= i < |chunks| ==> held(chunks[..i]) + |chunks[i]| <= MAX_BULK
  }

  /** No call of Feed brings the buffer over its limit. */
  predicate Room(chunks: seq<Bytes>) {
    RoomFor(Held, chunks)
  }

  /** There is room for all chunks when there is for all but the last, and then for the last. */
  lemma RoomSteps(held: seq<Bytes> -> nat, chunks: seq<Bytes>, n: nat)
    requires n + 1 == |chunks|
    ensures RoomFor(held, chunks) <==> RoomFor(held, chunks[..n]) && held(chunks[..n]) + |chunks[n]| <= MAX_BULK
  {
    assert forall i :: 0 <= i < n ==> chunks[..n][..i] == chunks[..i] && chunks[..n][i] == chunks[i];
  }

  lemma FeedAllStep(chunks: seq<Bytes>, buf: Bytes, cmds: seq<Argv>, r: Drained)
    requires chunks != [] && FeedAll(EMPTY, chunks[..|chunks| - 1]) == (State(buf, None), cmds)
    requires |buf| + |chunks[|chunks| - 1]| <= MAX_BULK && ParseAll(buf + chunks[|chunks| - 1]) == r
    ensures FeedAll(EMPTY, chunks) == (State(r.rest, r.error), cmds + r.cmds)
  {
  }

  /**
  However a stream of encoded requests is cut, as long as it fits the buffer no call of Feed raises an error, and
  after any number of chunks the commands returned are exactly the requests received in full.
  */
  lemma {:induction false} FeedStream(reqs: seq<Argv>, chunks: seq<Bytes>) returns (k: nat, buf: Bytes)
    requires All(Request, reqs) && Room(chunks) && Concat(chunks) <= Stream(BulkArray, reqs)
    ensures Split(BulkArray, reqs, Concat(chunks), k, buf)
    ensures FeedAll(EMPTY, chunks) == (State(buf, None), reqs[..k])
  {
    if chunks == [] {
      k, buf := 0, [];
    } else {
      var before, last := Concat(chunks[..|chunks| - 1]), chunks[|chunks| - 1];
      assert before <= Concat(chunks);
      RoomSteps(Held, chunks, |chunks| - 1);
      var k0, buf0 := FeedStream(reqs, chunks[..|chunks| - 1]);
      RequestFraming();
      var mid;
      k, buf, mid := DrainOneMore(BulkArray, Parse, Request, reqs, before, last, k0, buf0);
      FeedAllStep(chunks, buf0, reqs[..k0], Drained(mid, buf, None));
    }
  }

  lemma NoErrorBefore(chunks: seq<Bytes>, n: nat)
    requires n + 1 == |chunks| && FeedAll(EMPTY, chunks).0.error.None?
    ensures FeedAll(EMPTY, chunks[..n]).0.error.None?
    ensures |FeedAll(EMPTY, chunks[..n]).0.buf| + |chunks[n]| <= MAX_BULK
  {
  }

  /** Without an error at the end there was none before, and no call went over the limit. */
  lemma {:induction false} NoErrorHasRoom(chunks: seq<Bytes>)
    requires FeedAll(EMPTY, chunks).0.error.None?
    ensures Room(chunks)
  {
    if chunks != [] {
      var n := |chunks| - 1;
      NoErrorBefore(chunks, n);
      NoErrorHasRoom(chunks[..n]);
      RoomSteps(Held, chunks, n);
    }
  }

  /** For encoded requests the buffer limit is the only source of errors. */
  lemma StreamErrorFreeIff(reqs: seq<Argv>, chunks: seq<Bytes>)
    requires All(Request, reqs) && Concat(chunks) <= Stream(BulkArray, reqs)
    ensures FeedAll(EMPTY, chunks).0.error.None? <==> Room(chunks)
  {
    if Room(chunks) {
      var k, buf := FeedStream(reqs, chunks);
    }
    if FeedAll(EMPTY, chunks).0.error.None? {
      NoErrorHasRoom(chunks);
    }
  }

  /** When the whole stream has arrived, the commands are the requests and nothing is held back. */
  lemma StreamDelivered(reqs: seq<Argv>, chunks: seq<Bytes>)
    requires All(Request, reqs) && Room(chunks) && Concat(chunks) == Stream(BulkArray, reqs)
    ensures FeedAll(EMPTY, chunks) == (EMPTY, reqs)
  {
    var k, buf := FeedStream(reqs, chunks);
    WholeStream(BulkArray, reqs, k, buf);
  }

  /** No prefix of an encoded stream, of any length, raises an error: such streams have short lines only. */
  lemma StreamPrefixesOk(reqs: seq<Argv>)
    requires All(Request, reqs)
    ensures PrefixesOk(Stream(BulkArray, reqs)) && ShortLines(Stream(BulkArray, reqs))
  {
    var w := Stream(BulkArray, reqs);
    RequestFraming();
    forall i | 0 <= i <= |w|
      ensures ParseAll(w[..i]).error.None?
    {
      var k, y := DrainPrefix(BulkArray, Parse, Request, reqs, w[..i]);
    }
    PrefixesOkIff(w);
  }

  /** Only at its end does a stream split with nothing missing. */
  lemma WholeStream(enc: Argv -> Bytes, reqs: seq<Argv>, k: nat, y: Bytes)
    requires Split(enc, reqs, Stream(enc, reqs), k, y)
    ensures y == [] && reqs[..k] == reqs
  {
    if k < |reqs| {
      StreamAtLeast(enc, reqs, k);
      assert false;
    }
  }

  lemma StreamAtLeast(enc: Argv -> Bytes, reqs: seq<Argv>, k: nat)
    requires k < |reqs|
    ensures |Stream(enc, reqs)| >= |Stream(enc, reqs[..k])| + |enc(reqs[k])|
  {
    assert reqs == reqs[..k] + reqs[k..];
    StreamConcat(enc, reqs[..k], reqs[k..]);
  }

  /** Outside such streams cuts can matter: a long run of leading zeros is fine in one call and refused in two. */
  lemma CutsCanMatter(w: Bytes)
    requires w == [STAR] + seq(32, _ => 48) + [LF]
    ensures Feed(EMPTY, w) == (EMPTY, [[]])
    ensures w[..33] + [LF] == w && FeedAll(EMPTY, [w[..33], [LF]]).0.error == Some(InvalidMultibulkLength)
  {
    WholeLine(w);
    OneCall(w, Drained([[]], [], None));
    HalfLine(w[..33]);
    RefusedAtOnce(w[..33], [LF]);
  }

  lemma OneCall(w: Bytes, r: Drained)
    requires |w| <= MAX_BULK && ParseAll(w) == r
    ensures Feed(EMPTY, w) == (State(r.rest, r.error), r.cmds)
  {
    assert [] + w == w;
  }

  /** An error raised by the first of two calls stays. */
  lemma RefusedAtOnce(a: Bytes, c: Bytes)
    requires |a| <= MAX_BULK && ParseAll(a).error.Some?
    ensures FeedAll(EMPTY, [a, c]).0.error == ParseAll(a).error
  {
    OneCall(a, ParseAll(a));
    OneChunk(a);
    assert [a, c][..1] == [a];
  }

  lemma WholeLine(w: Bytes)
    requires w == [STAR] + seq(32, _ => 48) + [LF]
    ensures ParseAll(w) == Drained([[]], [], None)
  {
    var zeros: Bytes := seq(32, _ => 48);
    FindLfIs(w, 0, 33);
    assert w[1..33] == zeros;
    ZerosValue(zeros);
    assert Parse(w) == Done([], 34);
    assert w[34..] == [] && ParseAll([]) == Drained([], [], None);
  }

  lemma HalfLine(a: Bytes)
    requires |a| == 33 && a[0] == STAR && forall i :: 0 <= i < |a| ==> a[i] != LF
    ensures ParseAll(a).error == Some(InvalidMultibulkLength)
  {
    FindLfNone(a, 0);
  }

  lemma {:induction false} ZerosValue(s: Bytes)
    requires forall i :: 0 <= i < |s| ==> s[i] == 48
    ensures AllDigits(s) && Value(s) == 0
  {
    if s != [] {
      ZerosValue(s[..|s| - 1]);
    }
  }
}
