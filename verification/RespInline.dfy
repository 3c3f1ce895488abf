/** Inline commands: words separated by blanks on a line of their own are read back as those words. */
module RespInline {
  import opened Common
  import opened RespSpec
  import opened RespChunks

  /** A word an inline command can carry. */
  predicate Word(w: Bytes) {
    w != [] && forall i :: 0 <= i < |w| ==> !IsBlank(w[i]) && w[i] != LF
  }

  /** The words with one space between neighbours. */
  function Joined(ws: Argv): Bytes {
    if ws == [] then [] else if |ws| == 1 then ws[0] else ws[0] + [SPACE] + Joined(ws[1..])
  }

  lemma SkipIs(s: Bytes, i: nat, k: nat, blank: bool)
    requires i <= k <= |s| && (k < |s| ==> IsBlank(s[k]) != blank)
    requires forall j :: i <= j < k ==> IsBlank(s[j]) == blank
    ensures SkipWhile(s, i, blank) == k
  {
  }

  lemma SkipBlank(s: Bytes, i: nat)
    requires i < |s| && IsBlank(s[i])
    ensures Tokens(s, i) == Tokens(s, i + 1)
  {
  }

  lemma TokenHere(s: Bytes, i: nat, w: Bytes)
    requires Word(w) && i + |w| <= |s| && s[i..i + |w|] == w && (i + |w| < |s| ==> IsBlank(s[i + |w|]))
    ensures Tokens(s, i) == [w] + Tokens(s, i + |w|)
  {
    assert forall j :: i <= j < i + |w| ==> s[j] == w[j - i];
    SkipIs(s, i, i, true);
    SkipIs(s, i, i + |w|, false);
  }

  lemma TokenThenSpace(s: Bytes, i: nat, w: Bytes, e: nat, rest: Argv)
    requires Word(w) && e == i + |w| < |s| && s[i..e] == w && s[e] == SPACE && Tokens(s, e + 1) == rest
    ensures Tokens(s, i) == [w] + rest
  {
    TokenHere(s, i, w);
    SkipBlank(s, e);
  }

  /** From position i on, s is these words with a space after each but the last. */
  predicate WordsAt(s: Bytes, i: nat, ws: Argv)
    requires ws != []
    decreases |ws|
  {
    var e := i + |ws[0]|;
    Word(ws[0]) && e <= |s| && s[i..e] == ws[0] &&
    if |ws| == 1 then e == |s| else e < |s| && s[e] == SPACE && WordsAt(s, e + 1, ws[1..])
  }

  lemma HeadAndTail(ws: Argv)
    requires ws != []
    ensures [ws[0]] + ws[1..] == ws
  {
  }

  lemma {:induction false} TokensAt(s: Bytes, i: nat, ws: Argv)
    requires ws != [] && i <= |s| && WordsAt(s, i, ws)
    ensures Tokens(s, i) == ws
    decreases |ws|
  {
    var e := i + |ws[0]|;
    if |ws| == 1 {
      TokenHere(s, i, ws[0]);
    } else {
      TokensAt(s, e + 1, ws[1..]);
      TokenThenSpace(s, i, ws[0], e, ws[1..]);
    }
    HeadAndTail(ws);
  }

  lemma Parts(s: Bytes, i: nat, w: Bytes, rest: Bytes, k: nat)
    requires i <= |s| && s[i..] == w + [SPACE] + rest && k == i + |w| + 1
    ensures k <= |s| && s[i..i + |w|] == w && s[i + |w|] == SPACE && s[k..] == rest
  {
    var t := s[i..];
    assert s[i..i + |w|] == t[..|w|] && s[i + |w|] == t[|w|] && s[k..] == t[|w| + 1..];
  }

  lemma {:induction false} JoinedAt(s: Bytes, i: nat, ws: Argv)
    requires ws != [] && i <= |s| && s[i..] == Joined(ws) && forall w :: w in ws ==> Word(w)
    ensures WordsAt(s, i, ws)
    decreases |ws|
  {
    assert ws[0] in ws;
    if |ws| > 1 {
      var k := i + |ws[0]| + 1;
      Parts(s, i, ws[0], Joined(ws[1..]), k);
      JoinedAt(s, k, ws[1..]);
    }
  }

  lemma {:induction false} JoinedPlain(ws: Argv)
    requires forall w :: w in ws ==> Word(w)
    ensures forall i :: 0 <= i < |Joined(ws)| ==> Joined(ws)[i] != LF
  {
    if ws != [] {
      assert ws[0] in ws;
      if |ws| > 1 {
        JoinedPlain(ws[1..]);
      }
    }
  }

  function Line(ws: Argv): Bytes {
    Joined(ws) + [CR, LF]
  }

  /** A line without an inner LF, on its own and with whatever follows it. */
  lemma LineEnds(text: Bytes, b: Bytes, tail: Bytes)
    requires b == text + [CR, LF] + tail && forall i :: 0 <= i < |text| ==> text[i] != LF
    ensures FindLf(b, 0) == |text| + 1 && b[..|text|] == text && b[|text|] == CR
  {
    var n := |text|;
    assert b[..n] == text && b[n] == CR && b[n + 1] == LF;
    assert forall i :: 0 <= i < n ==> b[i] == text[i];
    FindLfIs(b, 0, n + 1);
  }

  /** Reading the line gives the words, takes exactly the line and leaves whatever follows it. */
  lemma InlineRoundTrip(ws: Argv, tail: Bytes)
    requires ws != [] && Word(ws[0]) && (forall w :: w in ws ==> Word(w)) && ws[0][0] != STAR
    ensures Parse(Line(ws) + tail) == Done(ws, |Line(ws)|)
  {
    var text := Joined(ws);
    JoinedPlain(ws);
    LineEnds(text, Line(ws) + tail, tail);
    assert text[0..] == text && text[0] == ws[0][0];
    JoinedAt(text, 0, ws);
    TokensAt(text, 0, ws);
  }
}
