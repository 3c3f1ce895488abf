/** Feeding a stream in chunks: when the way it is cut up makes no difference. */
module RespChunks {
  import opened Common
  import opened RespSpec

  lemma FindLfIs(b: Bytes, from: nat, j: nat)
    requires from <= j < |b| && b[j] == LF && forall i :: from <= i < j ==> b[i] != LF
    ensures FindLf(b, from) == j
  {
  }

  lemma FindLfNone(b: Bytes, from: nat)
    requires from <= |b| && forall i :: from <= i < |b| ==> b[i] != LF
    ensures FindLf(b, from) == |b|
  {
  }

  /** A line end once found does not move when more bytes arrive. */
  lemma FindLfStable(a: Bytes, c: Bytes, from: nat)
    requires from <= |a| && FindLf(a, from) < |a|
    ensures FindLf(a + c, from) == FindLf(a, from)
  {
    FindLfIs(a + c, from, FindLf(a, from));
  }

  lemma PayloadStable(a: Bytes, c: Bytes, start: nat, len: Option<nat>)
    requires ParsePayload(a, start, len).Bulk?
    ensures ParsePayload(a + c, start, len) == ParsePayload(a, start, len)
  {
    var tail := start + len.value;
    assert (a + c)[start..tail] == a[start..tail];
  }

  lemma BulkStable(a: Bytes, c: Bytes, pos: nat)
    requires ParseBulk(a, pos).Bulk?
    ensures ParseBulk(a + c, pos) == ParseBulk(a, pos)
  {
    FindLfStable(a, c, pos);
    var j := FindLf(a, pos);
    var e := LineEnd(a, pos, j);
    assert (a + c)[pos + 1..e] == a[pos + 1..e];
    PayloadStable(a, c, j + 1, Length(a[pos + 1..e], MAX_BULK));
  }

  lemma {:induction false} BulksStable(bulk: BulkParser, a: Bytes, c: Bytes, pos: nat, k: nat, acc: Argv)
    requires forall p: nat {:trigger bulk(a, p)} :: bulk(a, p).Bulk? ==> bulk(a + c, p) == bulk(a, p)
    requires ParseBulks(bulk, a, pos, k, acc).Done?
    ensures ParseBulks(bulk, a + c, pos, k, acc) == ParseBulks(bulk, a, pos, k, acc)
    decreases k
  {
    if k > 0 {
      var r := bulk(a, pos);
      BulksStable(bulk, a, c, r.next, k - 1, acc + [r.payload]);
    }
  }

  lemma CountedStable(a: Bytes, c: Bytes, pos: nat, count: Option<nat>)
    requires pos <= |a| && ParseCounted(a, pos, count).Done?
    ensures ParseCounted(a + c, pos, count) == ParseCounted(a, pos, count)
  {
    if count.value > 0 {
      forall p: nat | ParseBulk(a, p).Bulk?
        ensures ParseBulk(a + c, p) == ParseBulk(a, p)
      {
        BulkStable(a, c, p);
      }
      BulksStable(ParseBulk, a, c, pos, count.value, []);
    }
  }

  /** A complete command is parsed the same way whatever follows it. */
  lemma ParseStable(a: Bytes, c: Bytes)
    requires Parse(a).Done?
    ensures Parse(a + c) == Parse(a)
  {
    var j := FindLf(a, 0);
    FindLfStable(a, c, 0);
    var e := LineEnd(a, 0, j);
    if a[0] == STAR {
      assert (a + c)[1..e] == a[1..e];
      CountedStable(a, c, j + 1, Length(a[1..e], MAX_ELEMENTS));
    } else {
      assert (a + c)[..e] == a[..e];
    }
  }

  /** A complete command stays the same whatever follows it. */
  ghost predicate Stable(parse: Bytes -> Outcome) {
    forall a, c :: parse(a).Done? ==> parse(a + c) == parse(a)
  }

  /** What is left is a suffix of the buffer: the input is the bytes consumed followed by the rest. */
  lemma {:induction false} RestIsSuffix(b: Bytes)
    ensures var rest := ParseAll(b).rest; |rest| <= |b| && rest == b[|b| - |rest|..]
    decreases |b|
  {
    var o := Parse(b);
    if o.Done? {
      RestIsSuffix(b[o.consumed..]);
    }
  }

  lemma {:induction false} DrainAppend(parse: Bytes -> Outcome, a: Bytes, c: Bytes)
    requires Stable(parse) && Drain(parse, a).error.None?
    requires forall b :: parse(b).Done? ==> 0 < parse(b).consumed <= |b|
    ensures var p := Drain(parse, a); var q := Drain(parse, p.rest + c);
            Drain(parse, a + c) == Drained(p.cmds + q.cmds, q.rest, q.error)
    decreases |a|
  {
    var r := parse(a);
    if r.Done? {
      var n := r.consumed;
      assert parse(a + c) == r;
      assert (a + c)[n..] == a[n..] + c;
      DrainAppend(parse, a[n..], c);
      var p := Drain(parse, a[n..]);
      var q := Drain(parse, p.rest + c);
      ConcatAssoc([r.argv], p.cmds, q.cmds);
    } else {
      var q := Drain(parse, a + c);
      assert [] + q.cmds == q.cmds;
    }
  }

  /**
  Chunk independence of one cut: if the bytes so far raise no error, parsing them, keeping the rest and parsing
  on with c appended gives what parsing everything at once gives, including the final rest and error.
  */
  lemma ParseAllAppend(a: Bytes, c: Bytes)
    requires ParseAll(a).error.None?
    ensures var p := ParseAll(a); var q := ParseAll(p.rest + c);
            ParseAll(a + c) == Drained(p.cmds + q.cmds, q.rest, q.error)
  {
    forall x, y | Parse(x).Done?
      ensures Parse(x + y) == Parse(x)
    {
      ParseStable(x, y);
    }
    DrainAppend(Parse, a, c);
  }

  /** The parser's state between calls of Feed. */
  datatype State = State(buf: Bytes, error: Option<ErrorKind>)

  const EMPTY: State := State([], None)

  /** One call of Feed: the new state and the commands returned. */
  function Feed(s: State, chunk: Bytes): (State, seq<Argv>) {
    if s.error.Some? then (s, [])
    else if |s.buf| + |chunk| > MAX_BULK then (State(s.buf + chunk, Some(TooBigBuffer)), [])
    else
      var r := ParseAll(s.buf + chunk);
      (State(r.rest, r.error), r.cmds)
  }

  function FeedAll(s: State, chunks: seq<Bytes>): (State, seq<Argv>) {
    if chunks == [] then (s, [])
    else
      var (s1, cmds1) := FeedAll(s, chunks[..|chunks| - 1]);
      var (s2, cmds2) := Feed(s1, chunks[|chunks| - 1]);
      (s2, cmds1 + cmds2)
  }

  function Concat(chunks: seq<Bytes>): Bytes {
    if chunks == [] then [] else Concat(chunks[..|chunks| - 1]) + chunks[|chunks| - 1]
  }

  /**
  A stream of any length gives the same commands and the same rest however it is cut, as long as no cut raises an
  error; and within the buffer limit it is what the one-shot call gives.
  */
  lemma {:induction false} ChunkingIrrelevant(chunks: seq<Bytes>)
    requires FeedAll(EMPTY, chunks).0.error.None?
    ensures var (s, cmds) := FeedAll(EMPTY, chunks);
            ParseAll(Concat(chunks)) == Drained(cmds, s.buf, None)
    ensures |Concat(chunks)| <= MAX_BULK ==> Feed(EMPTY, Concat(chunks)) == FeedAll(EMPTY, chunks)
  {
    if chunks != [] {
      var init, last := chunks[..|chunks| - 1], chunks[|chunks| - 1];
      ChunkingIrrelevant(init);
      ParseAllAppend(Concat(init), last);
    }
    assert EMPTY.buf + Concat(chunks) == Concat(chunks);
  }

  ghost predicate PrefixesOk(w: Bytes) {
    forall i :: 0 <= i <= |w| ==> ParseAll(w[..i]).error.None?
  }

  ghost predicate ChunkingsOk(w: Bytes) {
    forall chunks :: Concat(chunks) == w ==> FeedAll(EMPTY, chunks).0.error.None?
  }

  /** Every chunking of a stream is free of errors exactly when no prefix of it raises one. */
  lemma ErrorFreeChunkings(w: Bytes)
    requires |w| <= MAX_BULK
    ensures PrefixesOk(w) <==> ChunkingsOk(w)
  {
    if PrefixesOk(w) {
      forall chunks | Concat(chunks) == w
        ensures FeedAll(EMPTY, chunks).0.error.None?
      {
        NoErrorOnPrefixes(w, chunks);
      }
    }
    if ChunkingsOk(w) {
      forall i | 0 <= i <= |w|
        ensures ParseAll(w[..i]).error.None?
      {
        NoErrorOnChunkings(w, i);
      }
    }
  }

  lemma NoErrorOnChunkings(w: Bytes, i: nat)
    requires i <= |w| <= MAX_BULK && ChunkingsOk(w)
    ensures ParseAll(w[..i]).error.None?
  {
    var a, c := w[..i], w[i..];
    assert a + c == w;
    TwoChunks(a, c);
  }

  lemma TwoChunks(a: Bytes, c: Bytes)
    requires |a| <= MAX_BULK
    ensures Concat([a, c]) == a + c
    ensures FeedAll(EMPTY, [a, c]).0.error.None? ==> ParseAll(a).error.None?
  {
    assert [a, c][..1] == [a] && [a][..0] == [];
    assert [] + a == a;
    assert Concat([a]) == Concat([]) + a;
    assert Concat([a, c]) == Concat([a]) + c;
    assert FeedAll(EMPTY, [a]) == (Feed(EMPTY, a).0, [] + Feed(EMPTY, a).1);
  }

  lemma {:induction false} NoErrorOnPrefixes(w: Bytes, chunks: seq<Bytes>)
    requires |w| <= MAX_BULK && Concat(chunks) <= w && PrefixesOk(w)
    ensures FeedAll(EMPTY, chunks).0.error.None?
  {
    if chunks != [] {
      var init, last := chunks[..|chunks| - 1], chunks[|chunks| - 1];
      var all := Concat(chunks);
      assert Concat(init) <= all <= w;
      NoErrorOnPrefixes(w, init);
      ChunkingIrrelevant(init);
      RestIsSuffix(Concat(init));
      assert all == w[..|all|];
      assert ParseAll(all).error.None?;
      ParseAllAppend(Concat(init), last);
    }
  }
}
