/** The incremental request parser: a buffer that Feed appends to and complete commands are cut from. */
module RespParser {
  import opened Common
  import opened RespSpec
  import opened RespChunks

  /** The loop over the bulk strings of a request, with k of them to go, is on its way to `all`. */
  ghost predicate BulksLeft(all: Outcome, b: Bytes, pos: nat, k: nat, out: Argv) {
    pos <= |b| && all == ParseBulks(ParseBulk, b, pos, k, out)
  }

  lemma LeftStep(all: Outcome, b: Bytes, pos: nat, k: nat, out: Argv, r: BulkOutcome)
    requires k > 0 && BulksLeft(all, b, pos, k, out) && r == ParseBulk(b, pos)
    ensures r.BulkIncomplete? ==> all == Incomplete
    ensures r.BulkError? ==> all == Error(r.error)
    ensures r.Bulk? ==> BulksLeft(all, b, r.next, k - 1, out + [r.payload])
  {
  }

  /** The tokens cut from the line so far, with those from i on, are all its tokens. */
  ghost predicate TokensCut(line: Bytes, i: nat, argv: Argv) {
    i <= |line| && argv + Tokens(line, i) == Tokens(line, 0)
  }

  lemma TokensStep(line: Bytes, i: nat, argv: Argv, start: nat, end: nat)
    requires TokensCut(line, i, argv)
    requires start == SkipWhile(line, i, true) && end == SkipWhile(line, start, false)
    ensures TokensCut(line, end, if end > start then argv + [line[start..end]] else argv)
  {
    if end > start {
      ConcatAssoc(argv, [line[start..end]], Tokens(line, end));
    }
  }

  class RequestParser {
    var buf: Bytes
    var error: Option<ErrorKind>

    constructor ()
      ensures buf == [] && error == None
    {
      buf, error := [], None;
    }

    /** The scan for a line end from `from`: the position of the LF and of the end of the line's text. */
    method ScanLine(from: nat) returns (found: bool, lf: nat, end: nat)
      requires from <= |buf|
      ensures found <==> FindLf(buf, from) < |buf|
      ensures found ==> lf == FindLf(buf, from) && end == LineEnd(buf, from, lf) && AfterLine(end) == lf + 1
    {
      var sawCr := false;
      lf, end := from, from;
      while lf < |buf|
        invariant from <= lf <= |buf| && FindLf(buf, from) == FindLf(buf, lf)
        invariant sawCr <==> lf > from && buf[lf - 1] == CR
      {
        if buf[lf] == CR {
          sawCr := true;
        } else if buf[lf] == LF {
          end := if sawCr then lf - 1 else lf;
          return true, lf, end;
        } else {
          sawCr := false;
        }
        lf := lf + 1;
      }
      found := false;
    }

    /** Where the next line starts, after the CRLF or LF that ends the line at `end`. */
    function AfterLine(end: nat): nat
      reads this
    {
      if end + 1 < |buf| && buf[end] == CR && buf[end + 1] == LF then end + 2 else end + 1
    }

    /** The digits of a length field; None for any character that is not one, or a number above the limit. */
    method ReadLength(text: Bytes, limit: nat) returns (r: Option<nat>)
      ensures r == Length(text, limit)
    {
      if text == [] {
        return None;
      }
      var n := 0;
      for i := 0 to |text|
        invariant AllDigits(text[..i]) && n == Value(text[..i])
      {
        if !IsDigit(text[i]) {
          return None;
        }
        assert text[..i + 1][..i] == text[..i];
        n := n * 10 + (text[i] - 48);
      }
      assert text[..|text|] == text;
      return if n > LLONG_MAX || n > limit then None else Some(n);
    }

    /** Advances over blanks, or over non-blanks, within the line. */
    method Advance(lineLen: nat, i0: nat, blank: bool) returns (i: nat)
      requires i0 <= lineLen <= |buf|
      ensures i == SkipWhile(buf[..lineLen], i0, blank)
    {
      i := i0;
      while i < lineLen && IsBlank(buf[i]) == blank
        invariant i0 <= i <= lineLen && SkipWhile(buf[..lineLen], i, blank) == SkipWhile(buf[..lineLen], i0, blank)
      {
        i := i + 1;
      }
    }

    /** Splits buf[..lineLen] on spaces and tabs, skipping empty tokens. */
    method SplitLine(lineLen: nat) returns (argv: Argv)
      requires lineLen <= |buf|
      ensures argv == Tokens(buf[..lineLen], 0)
    {
      argv := [];
      var i := 0;
      ghost var line := buf[..lineLen];
      while i < lineLen
        invariant TokensCut(line, i, argv)
      {
        var start := Advance(lineLen, i, true);
        var end := Advance(lineLen, start, false);
        TokensStep(line, i, argv, start, end);
        i := end;
        if i > start {
          assert buf[start..i] == line[start..i];
          argv := argv + [buf[start..i]];
        }
      }
    }

    method TryParseInline() returns (r: Outcome)
      requires error == None
      modifies this
      ensures r == ParseInline(old(buf))
      ensures buf == (if r.Done? then old(buf)[r.consumed..] else old(buf))
      ensures error == (if r.Error? then Some(r.error) else None)
    {
      var found, lf, end := ScanLine(0);
      if !found {
        if |buf| > MAX_INLINE {
          error := Some(TooBigInline);
          return Error(TooBigInline);
        }
        return Incomplete;
      }
      var argv := SplitLine(end);
      var consumed := AfterLine(end);
      buf := buf[consumed..];
      return Done(argv, consumed);
    }

    /** One bulk string at pos. */
    method ReadBulk(pos: nat) returns (r: BulkOutcome)
      requires pos <= |buf|
      ensures r == ParseBulk(buf, pos)
    {
      if pos >= |buf| {
        return BulkIncomplete;
      }
      if buf[pos] != DOLLAR {
        return BulkError(ExpectedDollar(buf[pos]));
      }
      var found, lf, end := ScanLine(pos);
      if !found {
        return if |buf| - pos > 32 then BulkError(InvalidBulkLength) else BulkIncomplete;
      }
      var len := ReadLength(buf[pos + 1..end], MAX_BULK);
      if len.None? {
        return BulkError(InvalidBulkLength);
      }
      var start := AfterLine(end);
      if |buf| < start + len.value + 2 {
        return BulkIncomplete;
      }
      var tail := start + len.value;
      if buf[tail] != CR || buf[tail + 1] != LF {
        return BulkError(ExpectedCrLf);
      }
      return Bulk(buf[start..tail], tail + 2);
    }

    /** The loop over the bulk strings of a request. */
    method ReadBulks(pos0: nat, count: nat) returns (r: Outcome)
      requires pos0 <= |buf|
      ensures r == ParseBulks(ParseBulk, buf, pos0, count, [])
    {
      var pos: nat := pos0;
      var out: Argv := [];
      ghost var all, left := ParseBulks(ParseBulk, buf, pos0, count, []), count;
      for k := 0 to count
        invariant left == count - k && BulksLeft(all, buf, pos, left, out)
      {
        var b := ReadBulk(pos);
        LeftStep(all, buf, pos, left, out, b);
        if b.BulkIncomplete? {
          return Incomplete;
        }
        if b.BulkError? {
          return Error(b.error);
        }
        pos, out, left := b.next, out + [b.payload], left - 1;
      }
      return Done(out, pos);
    }

    /** The rest of a request, from pos on. */
    method ReadCounted(pos: nat, count: Option<nat>) returns (r: Outcome)
      requires pos <= |buf|
      ensures r == ParseCounted(buf, pos, count)
    {
      if count.None? {
        return Error(InvalidMultibulkLength);
      }
      if count.value == 0 {
        return Done([], pos);
      }
      r := ReadBulks(pos, count.value);
    }

    /** The request at the head of the buffer, which is not changed yet. */
    method ReadRequest() returns (r: Outcome)
      requires buf != [] && buf[0] == STAR
      ensures r == ParseMultiBulk(buf)
    {
      var found, lf, end := ScanLine(0);
      if found {
        var count := ReadLength(buf[1..end], MAX_ELEMENTS);
        r := ReadCounted(AfterLine(end), count);
      } else {
        r := if |buf| > 32 then Error(InvalidMultibulkLength) else Incomplete;
      }
    }

    method TryParseMultiBulk() returns (r: Outcome)
      requires error == None && buf != [] && buf[0] == STAR
      modifies this
      ensures r == ParseMultiBulk(old(buf))
      ensures buf == (if r.Done? then old(buf)[r.consumed..] else old(buf))
      ensures error == (if r.Error? then Some(r.error) else None)
    {
      r := ReadRequest();
      if r.Error? {
        error := Some(r.error);
      }
      if r.Done? {
        buf := buf[r.consumed..];
      }
    }

    method TryParseOne() returns (r: Outcome)
      requires error == None
      modifies this
      ensures r == Parse(old(buf))
      ensures buf == (if r.Done? then old(buf)[r.consumed..] else old(buf))
      ensures error == (if r.Error? then Some(r.error) else None)
    {
      if buf == [] {
        return Incomplete;
      }
      if buf[0] == STAR {
        r := TryParseMultiBulk();
      } else {
        r := TryParseInline();
      }
    }

    /** Cuts every complete command off the buffer. */
    method ParseBuffered() returns (cmds: seq<Argv>)
      modifies this
      ensures old(error).Some? ==> cmds == [] && buf == old(buf) && error == old(error)
      ensures old(error).None? ==> Drained(cmds, buf, error) == ParseAll(old(buf))
    {
      cmds := [];
      if error.Some? {
        return;
      }
      var more := true;
      while more
        invariant more ==> error == None
        invariant var r := ParseAll(buf);
                  if more then ParseAll(old(buf)) == Drained(cmds + r.cmds, r.rest, r.error)
                  else ParseAll(old(buf)) == Drained(cmds, buf, error)
        decreases more, |buf|
      {
        ghost var r := ParseAll(buf);
        var o := TryParseOne();
        more := o.Done?;
        if more {
          ConcatAssoc(cmds, [o.argv], ParseAll(buf).cmds);
          cmds := cmds + [o.argv];
        } else {
          assert cmds + r.cmds == cmds;
        }
      }
    }

    method Feed(data: Bytes) returns (cmds: seq<Argv>)
      modifies this
      ensures (State(buf, error), cmds) == RespChunks.Feed(State(old(buf), old(error)), data)
    {
      if error.None? {
        buf := buf + data;
        if |buf| > MAX_BULK {
          error := Some(TooBigBuffer);
        }
      }
      cmds := ParseBuffered();
    }

    method Reset()
      modifies this
      ensures State(buf, error) == EMPTY
    {
      buf, error := [], None;
    }
  }
}
