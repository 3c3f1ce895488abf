/**
The backtracking glob matcher.  It never accepts wrongly.  It is exact on every string without a `*` byte and for every
pattern without one, and on no other string and for no other pattern: there its literal test can take a `*` of the
pattern for a literal.
*/
module Glob {
  import opened Common

  const STAR: Byte := 42
  const QUESTION: Byte := 63

  /** The meaning of a pattern: `?` is any byte, `*` any string, and any other byte itself. */
  predicate Matches(p: Bytes, s: Bytes)
    decreases |p| + |s|
  {
    if p == [] then s == []
    else if p[0] == STAR then Matches(p[1..], s) || (s != [] && Matches(p, s[1..]))
    else s != [] && Fits(p[0], s[0]) && Matches(p[1..], s[1..])
  }

  predicate Fits(c: Byte, b: Byte) {
    c == QUESTION || c == b
  }

  predicate AllStars(p: Bytes) {
    p == [] || (p[0] == STAR && AllStars(p[1..]))
  }

  /** The matcher's state: positions in pattern and string, and where to resume after the last star. */
  datatype State = State(p: nat, s: nat, star: Option<nat>, resume: nat)

  predicate Ok(pattern: Bytes, str: Bytes, c: State) {
    c.p <= |pattern| && c.resume <= c.s <= |str| && (c.star.Some? ==> c.star.value < |pattern|)
  }

  datatype Move = Go(next: State) | Stuck

  function Step(pattern: Bytes, str: Bytes, c: State): Move
    requires Ok(pattern, str, c) && c.s < |str|
  {
    if c.p < |pattern| && Fits(pattern[c.p], str[c.s]) then Go(c.(p := c.p + 1, s := c.s + 1))
    else if c.p < |pattern| && pattern[c.p] == STAR then Go(State(c.p + 1, c.s, Some(c.p), c.s))
    else if c.star.Some? then Go(State(c.star.value + 1, c.resume + 1, c.star, c.resume + 1))
    else Stuck
  }

  /** The loop run out. */
  predicate Run(pattern: Bytes, str: Bytes, c: State)
    requires Ok(pattern, str, c)
    decreases |str| - c.resume, |str| - c.s + |pattern| - c.p
  {
    if c.s == |str| then AllStars(pattern[c.p..])
    else match Step(pattern, str, c)
      case Go(next) => Run(pattern, str, next)
      case Stuck => false
  }

  const START := State(0, 0, None, 0)

  method GlobMatch(pattern: Bytes, str: Bytes) returns (r: bool)
    ensures r == Run(pattern, str, START)
    ensures r ==> Matches(pattern, str)
    ensures STAR !in pattern || STAR !in str ==> r == Matches(pattern, str)
  {
    RunMeans(pattern, str);
    var p: nat, s: nat, star: Option<nat>, resume: nat := 0, 0, None, 0;
    while s < |str|
      invariant Ok(pattern, str, State(p, s, star, resume))
      invariant Run(pattern, str, START) == Run(pattern, str, State(p, s, star, resume))
      decreases |str| - resume, |str| - s + |pattern| - p
    {
      if p < |pattern| && (pattern[p] == QUESTION || pattern[p] == str[s]) {
        p, s := p + 1, s + 1;
      } else if p < |pattern| && pattern[p] == STAR {
        star, p := Some(p), p + 1;
        resume := s;
      } else if star.Some? {
        p, resume := star.value + 1, resume + 1;
        s := resume;
      } else {
        return false;
      }
    }
    r := OnlyStars(pattern, p);
  }

  /** The loop over the stars that are left. */
  method OnlyStars(pattern: Bytes, p0: nat) returns (r: bool)
    requires p0 <= |pattern|
    ensures r == AllStars(pattern[p0..])
  {
    var p := p0;
    while p < |pattern| && pattern[p] == STAR
      invariant p <= |pattern| && AllStars(pattern[p..]) == AllStars(pattern[p0..])
    {
      assert pattern[p..][1..] == pattern[p + 1..];
      p := p + 1;
    }
    return p == |pattern|;
  }

  // ---- it never accepts wrongly ----

  lemma {:induction false} Concat(p: Bytes, q: Bytes, s: Bytes, t: Bytes)
    requires Matches(p, s) && Matches(q, t)
    ensures Matches(p + q, s + t)
    decreases |p| + |s|
  {
    if p == [] {
      assert p + q == q && s + t == t;
    } else {
      assert (p + q)[1..] == p[1..] + q;
      if p[0] == STAR && Matches(p[1..], s) {
        Concat(p[1..], q, s, t);
      } else {
        assert (s + t)[1..] == s[1..] + t;
        Concat(if p[0] == STAR then p else p[1..], q, s[1..], t);
      }
    }
  }

  lemma StarAlone(s: Bytes)
    ensures Matches([STAR], s)
    decreases |s|
  {
    assert [STAR][1..] == [];
    if s != [] {
      StarAlone(s[1..]);
    }
  }

  /** A star at the end may take more. */
  lemma {:induction false} StarTakesMore(p: Bytes, s: Bytes, t: Bytes)
    requires Matches(p + [STAR], s)
    ensures Matches(p + [STAR], s + t)
    decreases |p| + |s|
  {
    var q := p + [STAR];
    if p == [] {
      assert q == [STAR];
      StarAlone(s + t);
    } else {
      assert q[1..] == p[1..] + [STAR];
      if q[0] == STAR && Matches(q[1..], s) {
        StarTakesMore(p[1..], s, t);
      } else {
        assert (s + t)[1..] == s[1..] + t;
        StarTakesMore(if q[0] == STAR then p else p[1..], s[1..], t);
      }
    }
  }

  /** What has been read of the pattern matches what has been read of the string. */
  ghost predicate SoFar(pattern: Bytes, str: Bytes, c: State) {
    Ok(pattern, str, c) && Matches(pattern[..c.p], str[..c.s]) &&
    (c.star.Some? ==> pattern[c.star.value] == STAR && Matches(pattern[..c.star.value + 1], str[..c.resume]))
  }

  lemma FitsAlone(c: Byte, b: Byte)
    requires Fits(c, b)
    ensures Matches([c], [b])
  {
    assert [c][1..] == [] && [b][1..] == [];
    if c == STAR {
      StarAlone([b]);
    }
  }

  lemma Prefix<T>(s: seq<T>, i: nat)
    requires i < |s|
    ensures s[..i + 1] == s[..i] + [s[i]]
  {
  }

  lemma StepKeepsSoFar(pattern: Bytes, str: Bytes, c: State)
    requires SoFar(pattern, str, c) && c.s < |str| && Step(pattern, str, c).Go?
    ensures SoFar(pattern, str, Step(pattern, str, c).next)
  {
    Prefix(str, c.s);
    if c.p < |pattern| {
      Prefix(pattern, c.p);
    }
    if c.p < |pattern| && Fits(pattern[c.p], str[c.s]) {
      FitsAlone(pattern[c.p], str[c.s]);
      Concat(pattern[..c.p], [pattern[c.p]], str[..c.s], [str[c.s]]);
    } else if c.p < |pattern| && pattern[c.p] == STAR {
      StarAlone([]);
      Concat(pattern[..c.p], [STAR], str[..c.s], []);
      assert str[..c.s] + [] == str[..c.s];
    } else {
      Prefix(pattern, c.star.value);
      Prefix(str, c.resume);
      StarTakesMore(pattern[..c.star.value], str[..c.resume], [str[c.resume]]);
    }
  }

  lemma {:induction false} StarsMatchNothing(p: Bytes)
    ensures AllStars(p) <==> Matches(p, [])
  {
    if p != [] {
      StarsMatchNothing(p[1..]);
    }
  }

  lemma {:induction false} RunSound(pattern: Bytes, str: Bytes, c: State)
    requires SoFar(pattern, str, c) && Run(pattern, str, c)
    ensures Matches(pattern, str)
    decreases |str| - c.resume, |str| - c.s + |pattern| - c.p
  {
    if c.s == |str| {
      StarsMatchNothing(pattern[c.p..]);
      assert str[..c.s] == str;
      Concat(pattern[..c.p], pattern[c.p..], str, []);
      assert pattern[..c.p] + pattern[c.p..] == pattern && str + [] == str;
    } else {
      StepKeepsSoFar(pattern, str, c);
      RunSound(pattern, str, Step(pattern, str, c).next);
    }
  }

  lemma RunIsSound(pattern: Bytes, str: Bytes)
    ensures Run(pattern, str, START) ==> Matches(pattern, str)
  {
    if Run(pattern, str, START) {
      assert pattern[..0] == [] && str[..0] == [];
      RunSound(pattern, str, START);
    }
  }

  // ---- it misses nothing when the pattern or the string is without a star ----

  predicate Rest(pattern: Bytes, str: Bytes, p: nat, s: nat)
    requires p <= |pattern| && s <= |str|
  {
    Matches(pattern[p..], str[s..])
  }

  ghost predicate Later(pattern: Bytes, str: Bytes, p: nat, s: nat)
    requires p <= |pattern|
  {
    exists y :: s < y <= |str| && Rest(pattern, str, p, y)
  }

  /** Some later resumption of the last star would match. */
  ghost predicate Back(pattern: Bytes, str: Bytes, c: State)
    requires Ok(pattern, str, c)
  {
    c.star.Some? && Later(pattern, str, c.star.value + 1, c.resume)
  }

  /** Since the last star only single bytes were read, one for one. */
  ghost predicate Aligned(pattern: Bytes, str: Bytes, c: State) {
    Ok(pattern, str, c) &&
    (c.star.Some? ==> c.star.value < c.p && c.p - (c.star.value + 1) == c.s - c.resume &&
                      forall i :: c.star.value < i < c.p ==> pattern[i] != STAR)
  }

  lemma RestStep(pattern: Bytes, str: Bytes, p: nat, s: nat)
    requires p < |pattern| && s <= |str|
    ensures pattern[p] == STAR ==>
              (Rest(pattern, str, p, s) <==>
               Rest(pattern, str, p + 1, s) || (s < |str| && Rest(pattern, str, p, s + 1)))
    ensures pattern[p] != STAR ==>
              (Rest(pattern, str, p, s) <==> s < |str| && Fits(pattern[p], str[s]) && Rest(pattern, str, p + 1, s + 1))
  {
    assert pattern[p..][1..] == pattern[p + 1..];
    if s < |str| {
      assert str[s..][1..] == str[s + 1..];
    }
  }

  /** Single bytes match one for one. */
  lemma {:induction false} RestShift(pattern: Bytes, str: Bytes, p: nat, s: nat, n: nat)
    requires p + n <= |pattern| && s <= |str| && Rest(pattern, str, p, s)
    requires forall i :: p <= i < p + n ==> pattern[i] != STAR
    ensures s + n <= |str| && Rest(pattern, str, p + n, s + n)
    decreases n
  {
    if n > 0 {
      RestStep(pattern, str, p, s);
      RestShift(pattern, str, p + 1, s + 1, n - 1);
    }
  }

  /** A star matches now exactly when what follows it matches here or further on. */
  lemma {:induction false} StarReaches(pattern: Bytes, str: Bytes, p: nat, s: nat, y: nat)
    requires p < |pattern| && pattern[p] == STAR && s <= y <= |str|
    requires Rest(pattern, str, p, y) || Rest(pattern, str, p + 1, y)
    ensures Rest(pattern, str, p, s)
    decreases y - s
  {
    RestStep(pattern, str, p, s);
    if s < y {
      StarReaches(pattern, str, p, s + 1, y);
    }
  }

  lemma {:induction false} StarFinds(pattern: Bytes, str: Bytes, p: nat, s: nat) returns (y: nat)
    requires p < |pattern| && pattern[p] == STAR && s <= |str| && Rest(pattern, str, p, s)
    ensures s <= y <= |str| && Rest(pattern, str, p + 1, y)
    decreases |str| - s
  {
    RestStep(pattern, str, p, s);
    if Rest(pattern, str, p + 1, s) {
      y := s;
    } else {
      y := StarFinds(pattern, str, p, s + 1);
    }
  }

  /** Matching now or after a later resumption. */
  ghost predicate Possible(pattern: Bytes, str: Bytes, c: State)
    requires Ok(pattern, str, c)
  {
    Rest(pattern, str, c.p, c.s) || Back(pattern, str, c)
  }

  lemma AtEnd(pattern: Bytes, str: Bytes, c: State)
    requires Aligned(pattern, str, c) && c.s == |str|
    ensures AllStars(pattern[c.p..]) <==> Possible(pattern, str, c)
  {
    StarsMatchNothing(pattern[c.p..]);
    assert str[c.s..] == [];
    if Back(pattern, str, c) {
      var y :| c.resume < y <= |str| && Rest(pattern, str, c.star.value + 1, y);
      RestShift(pattern, str, c.star.value + 1, y, c.s - c.resume);
    }
  }

  lemma TakeByte(pattern: Bytes, str: Bytes, c: State)
    requires Aligned(pattern, str, c) && c.s < |str| && c.p < |pattern|
    requires Fits(pattern[c.p], str[c.s]) && pattern[c.p] != STAR
    ensures var c' := c.(p := c.p + 1, s := c.s + 1);
            Aligned(pattern, str, c') && (Possible(pattern, str, c) <==> Possible(pattern, str, c'))
  {
    RestStep(pattern, str, c.p, c.s);
  }

  lemma TakeStar(pattern: Bytes, str: Bytes, c: State)
    requires Aligned(pattern, str, c) && c.s < |str| && c.p < |pattern| && pattern[c.p] == STAR
    ensures var c' := State(c.p + 1, c.s, Some(c.p), c.s);
            Aligned(pattern, str, c') && (Possible(pattern, str, c) <==> Possible(pattern, str, c'))
  {
    var c' := State(c.p + 1, c.s, Some(c.p), c.s);
    if Back(pattern, str, c) {
      var y :| c.resume < y <= |str| && Rest(pattern, str, c.star.value + 1, y);
      RestShift(pattern, str, c.star.value + 1, y, c.s - c.resume);
      StarReaches(pattern, str, c.p, c.s, y + (c.s - c.resume));
    }
    if Rest(pattern, str, c.p, c.s) {
      var y := StarFinds(pattern, str, c.p, c.s);
    }
    if Possible(pattern, str, c') && !Rest(pattern, str, c.p + 1, c.s) {
      var y :| c'.resume < y <= |str| && Rest(pattern, str, c'.star.value + 1, y);
      StarReaches(pattern, str, c.p, c.s, y);
    }
    if Rest(pattern, str, c.p + 1, c.s) {
      StarReaches(pattern, str, c.p, c.s, c.s);
    }
  }

  lemma DeadEnd(pattern: Bytes, str: Bytes, c: State)
    requires Ok(pattern, str, c) && c.s < |str|
    requires !(c.p < |pattern| && (Fits(pattern[c.p], str[c.s]) || pattern[c.p] == STAR))
    ensures !Rest(pattern, str, c.p, c.s)
  {
    if c.p < |pattern| {
      RestStep(pattern, str, c.p, c.s);
    }
  }

  lemma Backtrack(pattern: Bytes, str: Bytes, c: State)
    requires Aligned(pattern, str, c) && c.s < |str| && c.star.Some? && !Rest(pattern, str, c.p, c.s)
    ensures var c' := State(c.star.value + 1, c.resume + 1, c.star, c.resume + 1);
            Aligned(pattern, str, c') && (Possible(pattern, str, c) <==> Possible(pattern, str, c'))
  {
    var c' := State(c.star.value + 1, c.resume + 1, c.star, c.resume + 1);
    if Back(pattern, str, c) {
      var y :| c.resume < y <= |str| && Rest(pattern, str, c.star.value + 1, y);
      assert y == c'.s || c'.resume < y;
    }
  }

  /** No star of the pattern passes the literal test. */
  ghost predicate Unmistaken(pattern: Bytes, str: Bytes) {
    forall i, j {:trigger Fits(pattern[i], str[j])} ::
      0 <= i < |pattern| && 0 <= j < |str| && Fits(pattern[i], str[j]) ==> pattern[i] != STAR
  }

  /** A step loses no possibility and gains none. */
  lemma Onward(pattern: Bytes, str: Bytes, c: State)
    requires Unmistaken(pattern, str) && Aligned(pattern, str, c) && c.s < |str|
    ensures match Step(pattern, str, c)
            case Go(c') => Aligned(pattern, str, c') && (Possible(pattern, str, c) <==> Possible(pattern, str, c'))
            case Stuck => !Possible(pattern, str, c)
  {
    if c.p < |pattern| && Fits(pattern[c.p], str[c.s]) {
      TakeByte(pattern, str, c);
    } else if c.p < |pattern| && pattern[c.p] == STAR {
      TakeStar(pattern, str, c);
    } else {
      DeadEnd(pattern, str, c);
      if c.star.Some? {
        Backtrack(pattern, str, c);
      }
    }
  }

  lemma {:induction false} RunComplete(pattern: Bytes, str: Bytes, c: State)
    requires Unmistaken(pattern, str) && Aligned(pattern, str, c)
    ensures Run(pattern, str, c) <==> Possible(pattern, str, c)
    decreases |str| - c.resume, |str| - c.s + |pattern| - c.p
  {
    if c.s == |str| {
      AtEnd(pattern, str, c);
    } else {
      Onward(pattern, str, c);
      var move := Step(pattern, str, c);
      if move.Go? {
        RunComplete(pattern, str, move.next);
      }
    }
  }

  lemma RunIsComplete(pattern: Bytes, str: Bytes)
    requires STAR !in pattern || STAR !in str
    ensures Run(pattern, str, START) <==> Matches(pattern, str)
  {
    RunComplete(pattern, str, START);
    assert pattern[0..] == pattern && str[0..] == str;
  }

  lemma RunMeans(pattern: Bytes, str: Bytes)
    ensures Run(pattern, str, START) ==> Matches(pattern, str)
    ensures STAR !in pattern || STAR !in str ==> Run(pattern, str, START) == Matches(pattern, str)
  {
    RunIsSound(pattern, str);
    if STAR !in pattern || STAR !in str {
      RunIsComplete(pattern, str);
    }
  }

  // ---- and only there ----

  lemma {:induction false} MatchesItself(s: Bytes)
    ensures Matches(s, s)
  {
    if s != [] {
      MatchesItself(s[1..]);
      FitsAlone(s[0], s[0]);
      Concat([s[0]], s[1..], [s[0]], s[1..]);
      assert [s[0]] + s[1..] == s;
    }
  }

  lemma {:induction false} QuestionsMatch(n: nat, s: Bytes)
    requires |s| == n
    ensures Matches(seq(n, _ => QUESTION), s)
  {
    if n > 0 {
      QuestionsMatch(n - 1, s[1..]);
      assert seq(n, _ => QUESTION)[1..] == seq(n - 1, _ => QUESTION);
    }
  }

  /** As long as the literal test succeeds the matcher does nothing else. */
  lemma {:induction false} LiteralRun(pattern: Bytes, str: Bytes, n: nat)
    requires n <= |str| < |pattern| && forall i :: 0 <= i < |str| ==> Fits(pattern[i], str[i])
    ensures Run(pattern, str, State(n, n, None, 0)) == AllStars(pattern[|str|..])
    decreases |str| - n
  {
    if n < |str| {
      LiteralRun(pattern, str, n + 1);
    }
  }

  /** The string up to its star, then one `?` for the star and for every byte after it. */
  function Missed(str: Bytes, k: nat): Bytes
    requires k < |str|
  {
    str[..k + 1] + seq(|str| - k, _ => QUESTION)
  }

  lemma MissedMatches(str: Bytes, k: nat, questions: Bytes)
    requires k < |str| && str[k] == STAR && questions == seq(|str| - k, _ => QUESTION)
    ensures Matches(str[..k + 1] + questions, str)
  {
    var u := str[..k];
    MatchesItself(u);
    StarAlone([]);
    Concat(u, [STAR], u, []);
    QuestionsMatch(|str| - k, str[k..]);
    Concat(u + [STAR], questions, u + [], str[k..]);
    assert str[..k + 1] == u + [STAR] && u + [] + str[k..] == str;
  }

  lemma MissedRefused(str: Bytes, k: nat)
    requires k < |str|
    ensures !Run(Missed(str, k), str, START)
  {
    var p := Missed(str, k);
    LiteralRun(p, str, 0);
    assert p[|str|..][0] == QUESTION;
  }

  /** A pattern followed by more: every byte of the pattern is used up as a literal, and the rest is left over. */
  lemma {:induction false} LiteralShort(pattern: Bytes, more: Bytes, n: nat)
    requires more != [] && n <= |pattern|
    ensures !Run(pattern, pattern + more, State(n, n, None, 0))
    decreases |pattern| - n
  {
    var str := pattern + more;
    if n < |pattern| {
      assert str[n] == pattern[n];
      LiteralShort(pattern, more, n + 1);
    }
  }

  /** What follows the star at k once more, or any byte when nothing does. */
  function Again(pattern: Bytes, k: nat): (more: Bytes)
    requires k < |pattern|
    ensures more != []
  {
    if k + 1 < |pattern| then pattern[k + 1..] else [0]
  }

  lemma StarBetween(u: Bytes, taken: Bytes, v: Bytes)
    ensures Matches(u + ([STAR] + v), u + (taken + v))
  {
    MatchesItself(u);
    MatchesItself(v);
    StarAlone(taken);
    Concat([STAR], v, taken, v);
    Concat(u, [STAR] + v, u, taken + v);
  }

  lemma AgainParts(pattern: Bytes, k: nat, u: Bytes, taken: Bytes, v: Bytes)
    requires k < |pattern| && pattern[k] == STAR && u == pattern[..k] && v == pattern[k + 1..]
    requires taken == if v == [] then [STAR, 0] else [STAR] + v
    ensures u + ([STAR] + v) == pattern && u + (taken + v) == pattern + Again(pattern, k)
  {
    assert u + ([STAR] + v) == pattern;
  }

  lemma AgainMatches(pattern: Bytes, k: nat, more: Bytes)
    requires k < |pattern| && pattern[k] == STAR && more == Again(pattern, k)
    ensures Matches(pattern, pattern + more)
  {
    var u, v := pattern[..k], pattern[k + 1..];
    var taken := if v == [] then [STAR, 0] else [STAR] + v;
    AgainParts(pattern, k, u, taken, v);
    StarBetween(u, taken, v);
  }

  /** The matcher decides every string correctly for exactly the patterns that hold no star. */
  lemma ExactPatternIff(pattern: Bytes)
    ensures (forall str :: Run(pattern, str, START) == Matches(pattern, str)) <==> STAR !in pattern
  {
    if STAR !in pattern {
      forall str ensures Run(pattern, str, START) == Matches(pattern, str) {
        RunIsComplete(pattern, str);
      }
    } else {
      var k :| 0 <= k < |pattern| && pattern[k] == STAR;
      AgainMatches(pattern, k, Again(pattern, k));
      LiteralShort(pattern, Again(pattern, k), 0);
    }
  }

  /** The matcher decides every pattern correctly for exactly the strings that hold no star. */
  lemma ExactIff(str: Bytes)
    ensures (forall pattern :: Run(pattern, str, START) == Matches(pattern, str)) <==> STAR !in str
  {
    if STAR !in str {
      forall pattern ensures Run(pattern, str, START) == Matches(pattern, str) {
        RunIsComplete(pattern, str);
      }
    } else {
      var k :| 0 <= k < |str| && str[k] == STAR;
      MissedMatches(str, k, seq(|str| - k, _ => QUESTION));
      MissedRefused(str, k);
    }
  }
}
