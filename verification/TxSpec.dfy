/**
MULTI, EXEC and DISCARD as a state machine.  The command table and the effect of every other command are
parameters, so that the results hold for any of them.
*/
module TxSpec {
  import opened Common

  type Argv = seq<Bytes>

  datatype Arity = Arity(min: nat, max: int)
  type Table = map<Bytes, Arity>

  const MULTI: Bytes := [77, 85, 76, 84, 73]
  const EXEC: Bytes := [69, 88, 69, 67]
  const DISCARD: Bytes := [68, 73, 83, 67, 65, 82, 68]
  const QUIT: Bytes := [81, 85, 73, 84]

  function ToUpper(s: Bytes): Bytes {
    seq(|s|, i requires 0 <= i < |s| => if 97 <= s[i] <= 122 then s[i] - 32 else s[i])
  }

  datatype Kind = Multi | Exec | Discard | Quit | Ordinary

  function KindOf(argv: Argv): Kind
    requires argv != []
  {
    var upper := ToUpper(argv[0]);
    if upper == MULTI then Multi else if upper == EXEC then Exec else if upper == DISCARD then Discard
    else if upper == QUIT then Quit else Ordinary
  }

  predicate Exists(table: Table, argv: Argv)
    requires argv != []
  {
    ToUpper(argv[0]) in table
  }

  /** In the table, with a number of words the table allows; a negative maximum allows any. */
  predicate Known(table: Table, argv: Argv)
    requires argv != []
  {
    Exists(table, argv) &&
    var a := table[ToUpper(argv[0])];
    |argv| >= a.min && (a.max >= 0 ==> |argv| <= a.max)
  }

  datatype ErrorReply =
    | UnknownCommand
    | WrongArgs
    | NestedMulti
    | ExecWithoutMulti
    | DiscardWithoutMulti
    | ExecAbort
    | OutOfMemory

  datatype Reply = Ok | Queued | Error(error: ErrorReply) | ArrayHeader(n: nat) | Plain(text: Bytes)

  /** What a command that is no transaction command does to the shared state and to its own session. */
  datatype Ran<W, S> = Ran(world: W, session: S, out: seq<Reply>)
  type Body<!W, !S> = (W, S, Argv) -> Ran<W, S>

  /** The transaction part of a client. */
  datatype Tx = Tx(inMulti: bool, error: bool, queue: seq<Argv>)
  const IDLE := Tx(false, false, [])

  /** A command that may wait in a queue. */
  predicate Queueable(table: Table, argv: Argv) {
    argv != [] && KindOf(argv) == Ordinary && Known(table, argv)
  }

  predicate Sound(table: Table, tx: Tx) {
    (!tx.inMulti ==> tx.queue == []) && forall q :: q in tx.queue ==> Queueable(table, q)
  }

  /** The next transaction state: it depends on nothing but the client's own state and words. */
  function Next(table: Table, tx: Tx, argv: Argv): Tx {
    if argv == [] then tx
    else if tx.inMulti && KindOf(argv) == Ordinary then
      if Known(table, argv) then tx.(queue := tx.queue + [argv]) else tx.(error := true)
    else if !Known(table, argv) then tx
    else match KindOf(argv)
      case Multi => if tx.inMulti then tx else Tx(true, false, [])
      case Exec => if tx.inMulti then Tx(false, tx.error, []) else tx
      case Discard => if tx.inMulti then IDLE else tx
      case _ => tx
  }

  /** The commands that take effect now, as one block. */
  function Block(table: Table, tx: Tx, argv: Argv): seq<Argv> {
    if argv == [] || !Known(table, argv) then []
    else match KindOf(argv)
      case Ordinary => if tx.inMulti then [] else [argv]
      case Quit => [argv]
      case Exec => if tx.inMulti && !tx.error then tx.queue else []
      case _ => []
  }

  /** The replies that come before those of the block. */
  function Answer(table: Table, tx: Tx, argv: Argv): seq<Reply> {
    if argv == [] then []
    else if !Exists(table, argv) then [Error(UnknownCommand)]
    else if !Known(table, argv) then [Error(WrongArgs)]
    else match KindOf(argv)
      case Ordinary => if tx.inMulti then [Queued] else []
      case Quit => []
      case Multi => [if tx.inMulti then Error(NestedMulti) else Ok]
      case Exec =>
        [if !tx.inMulti then Error(ExecWithoutMulti)
         else if tx.error then Error(ExecAbort)
         else ArrayHeader(|tx.queue|)]
      case Discard => [if tx.inMulti then Ok else Error(DiscardWithoutMulti)]
  }

  /** A block runs in order, with nothing in between. */
  function RunBlock<W, S>(body: Body<W, S>, w: W, s: S, cmds: seq<Argv>): Ran<W, S> {
    if cmds == [] then Ran(w, s, []) else
    var before := RunBlock(body, w, s, cmds[..|cmds| - 1]);
    var last := body(before.world, before.session, cmds[|cmds| - 1]);
    Ran(last.world, last.session, before.out + last.out)
  }

  lemma NextSound(table: Table, tx: Tx, argv: Argv)
    requires Sound(table, tx)
    ensures Sound(table, Next(table, tx, argv))
    ensures forall q :: q in Block(table, tx, argv) ==> q != [] && Known(table, q) && KindOf(q) in {Ordinary, Quit}
  {
  }

  /** EXEC announces as many replies as follow, when every command gives one. */
  lemma {:induction false} RepliesCounted<W(!new), S(!new)>(body: Body<W, S>, w: W, s: S, cmds: seq<Argv>)
    requires forall w, s, q :: q in cmds ==> |body(w, s, q).out| == 1
    ensures |RunBlock(body, w, s, cmds).out| == |cmds|
  {
    if cmds != [] {
      RepliesCounted(body, w, s, cmds[..|cmds| - 1]);
    }
  }

  // ---- the memory limit ----

  const FLUSHDB: Bytes := [70, 76, 85, 83, 72, 68, 66]
  const FLUSHALL: Bytes := [70, 76, 85, 83, 72, 65, 76, 76]

  /** The server around the dispatcher: its command table, its write commands, its memory limit and its commands. */
  datatype Env<!W, !S> = Env(table: Table, writes: set<Bytes>, limit: nat, used: W -> nat, command: Body<W, S>)

  /** A write that must not start: the memory in use is over the limit, and it is no flush. */
  predicate Held<W, S>(env: Env<W, S>, w: W, argv: Argv) {
    argv != [] && env.limit > 0 && env.used(w) > env.limit &&
    var name := ToUpper(argv[0]);
    name in env.writes && name != FLUSHDB && name != FLUSHALL
  }

  /** A command behind the memory gate. */
  function Gated<W, S>(env: Env<W, S>): Body<W, S> {
    (w, s, argv) => if Held(env, w, argv) then Ran(w, s, [Error(OutOfMemory)]) else env.command(w, s, argv)
  }

  /** No transaction command is a write. */
  predicate PlainWrites(writes: set<Bytes>) {
    MULTI !in writes && EXEC !in writes && DISCARD !in writes
  }

  // ---- one client's history ----

  function After(table: Table, tx: Tx, history: seq<Argv>): Tx {
    if history == [] then tx else Next(table, After(table, tx, history[..|history| - 1]), history[|history| - 1])
  }

  /** An accepted EXEC or DISCARD. */
  predicate Closes(table: Table, argv: Argv) {
    argv != [] && Known(table, argv) && KindOf(argv) in {Exec, Discard}
  }

  predicate Rejected(table: Table, argv: Argv) {
    argv != [] && KindOf(argv) == Ordinary && !Known(table, argv)
  }

  /** The ordinary commands of a stretch of history that the table knows, in order. */
  function Accepted(table: Table, words: seq<Argv>): seq<Argv> {
    if words == [] then [] else
    var last := words[|words| - 1];
    Accepted(table, words[..|words| - 1]) + if Queueable(table, last) then [last] else []
  }

  /**
  What is queued is what was said: after an accepted MULTI and any words without an accepted EXEC or DISCARD, the
  queue is exactly the accepted ordinary commands said since, and the error flag is set exactly when one was rejected.
  */
  lemma {:induction false} QueueIsWhatWasSaid(table: Table, words: seq<Argv>)
    requires forall i :: 0 <= i < |words| ==> !Closes(table, words[i])
    ensures var tx := After(table, Tx(true, false, []), words);
            tx.inMulti && tx.queue == Accepted(table, words) &&
            (tx.error <==> exists i :: 0 <= i < |words| && Rejected(table, words[i]))
    decreases |words|
  {
    if words != [] {
      var n := |words| - 1;
      QueueIsWhatWasSaid(table, words[..n]);
      assert !Closes(table, words[n]);
      assert (exists i :: 0 <= i < |words| && Rejected(table, words[i])) <==>
             (exists i :: 0 <= i < n && Rejected(table, words[..n][i])) || Rejected(table, words[n]) by {
        assert forall i :: 0 <= i < n ==> words[..n][i] == words[i];
      }
    }
  }

  lemma {:induction false} AfterConcat(table: Table, tx: Tx, a: seq<Argv>, b: seq<Argv>)
    ensures After(table, tx, a + b) == After(table, After(table, tx, a), b)
    decreases |b|
  {
    if b == [] {
      assert a + b == a;
    } else {
      var n := |b| - 1;
      AfterConcat(table, tx, a, b[..n]);
      assert (a + b)[..|a| + n] == a + b[..n];
    }
  }

  ghost predicate Opens(table: Table, argv: Argv) {
    argv != [] && Known(table, argv) && KindOf(argv) == Multi
  }

  /**
  A whole transaction in a client's history: what it said before, an accepted MULTI outside a transaction, words
  without an accepted EXEC or DISCARD, and then a closing command.  An EXEC takes effect as one block of exactly the
  words queued, or not at all when one of them was rejected; a DISCARD takes no effect; and either way the
  client is outside a transaction again.
  */
  lemma TransactionBlock(table: Table, tx: Tx, before: seq<Argv>, multi: Argv, words: seq<Argv>, close: Argv)
    requires !After(table, tx, before).inMulti && Opens(table, multi) && Closes(table, close)
    requires forall i :: 0 <= i < |words| ==> !Closes(table, words[i])
    ensures var now := After(table, tx, before + [multi] + words);
            Block(table, now, close) == (
              if KindOf(close) == Discard || exists i :: 0 <= i < |words| && Rejected(table, words[i]) then []
              else Accepted(table, words)) &&
            !Next(table, now, close).inMulti && Next(table, now, close).queue == []
  {
    AfterConcat(table, tx, before, [multi]);
    assert [multi][..0] == [];
    AfterConcat(table, tx, before + [multi], words);
    QueueIsWhatWasSaid(table, words);
  }

  /** Until it closes, nothing said inside a transaction takes effect, except QUIT. */
  lemma InsideIsQuiet(table: Table, words: seq<Argv>, i: nat)
    requires i < |words| && forall j :: 0 <= j < |words| ==> !Closes(table, words[j])
    ensures var now := After(table, Tx(true, false, []), words[..i]);
            Block(table, now, words[i]) == [] || (KindOf(words[i]) == Quit && Block(table, now, words[i]) == [words[i]])
  {
    QueueIsWhatWasSaid(table, words[..i]);
  }

  // ---- many clients ----

  datatype Event = Event(client: nat, argv: Argv)
  datatype Turn = Turn(client: nat, cmds: seq<Argv>)

  datatype State<W, S> = State(world: W, sessions: seq<S>, txs: seq<Tx>)

  predicate InRange(events: seq<Event>, n: nat) {
    forall i :: 0 <= i < |events| ==> events[i].client < n
  }

  function StepEvent<W, S>(table: Table, body: Body<W, S>, st: State<W, S>, e: Event): State<W, S>
    requires |st.sessions| == |st.txs| && e.client < |st.txs|
  {
    var c := e.client;
    var ran := RunBlock(body, st.world, st.sessions[c], Block(table, st.txs[c], e.argv));
    State(ran.world, st.sessions[c := ran.session], st.txs[c := Next(table, st.txs[c], e.argv)])
  }

  /** Any interleaving of the clients' commands. */
  function Play<W, S>(table: Table, body: Body<W, S>, st: State<W, S>, events: seq<Event>): (r: State<W, S>)
    requires |st.sessions| == |st.txs| && InRange(events, |st.txs|)
    ensures |r.sessions| == |r.txs| == |st.txs|
    decreases |events|
  {
    if events == [] then st else
      StepEvent(table, body, Play(table, body, st, events[..|events| - 1]), events[|events| - 1])
  }

  /** What one command is answered: the dispatcher's own reply, then those of the commands it ran. */
  function EventAnswer<W, S>(table: Table, body: Body<W, S>, st: State<W, S>, e: Event): seq<Reply>
    requires |st.sessions| == |st.txs| && e.client < |st.txs|
  {
    Answer(table, st.txs[e.client], e.argv) +
    RunBlock(body, st.world, st.sessions[e.client], Block(table, st.txs[e.client], e.argv)).out
  }

  /** What the commands of a run are answered, one list of replies each. */
  function Answers<W, S>(table: Table, body: Body<W, S>, st: State<W, S>, events: seq<Event>): seq<seq<Reply>>
    requires |st.sessions| == |st.txs| && InRange(events, |st.txs|)
    decreases |events|
  {
    if events == [] then [] else
    var n := |events| - 1;
    Answers(table, body, st, events[..n]) + [EventAnswer(table, body, Play(table, body, st, events[..n]), events[n])]
  }

  /** One more event of a run. */
  lemma PlayMore<W, S>(table: Table, body: Body<W, S>, st: State<W, S>, events: seq<Event>, n: nat, mid: State<W, S>)
    requires |st.sessions| == |st.txs| && InRange(events, |st.txs|) && n < |events|
    requires mid == Play(table, body, st, events[..n])
    ensures Play(table, body, st, events[..n + 1]) == StepEvent(table, body, mid, events[n])
    ensures Answers(table, body, st, events[..n + 1]) ==
            Answers(table, body, st, events[..n]) + [EventAnswer(table, body, mid, events[n])]
  {
    assert events[..n + 1][..n] == events[..n];
  }

  /** What one client says in a run. */
  function History(events: seq<Event>, c: nat): seq<Argv> {
    if events == [] then [] else
    var e := events[|events| - 1];
    History(events[..|events| - 1], c) + if e.client == c then [e.argv] else []
  }

  /** A client's transaction state in a run is that of its own history. */
  lemma {:induction false} OwnHistory<W, S>(table: Table, body: Body<W, S>, st: State<W, S>, events: seq<Event>, c: nat)
    requires |st.sessions| == |st.txs| && InRange(events, |st.txs|) && c < |st.txs|
    ensures Play(table, body, st, events).txs[c] == After(table, st.txs[c], History(events, c))
    decreases |events|
  {
    if events != [] {
      var n := |events| - 1;
      OwnHistory(table, body, st, events[..n], c);
      var h := History(events[..n], c);
      assert (h + [events[n].argv])[..|h|] == h && h + [] == h;
    }
  }

  /** The turns of a run, read off the clients' own histories: no world, no session, no other client. */
  function Turns(table: Table, txs: seq<Tx>, events: seq<Event>): seq<Turn>
    requires InRange(events, |txs|)
    decreases |events|
  {
    if events == [] then [] else
    var n := |events| - 1;
    var c := events[n].client;
    Turns(table, txs, events[..n]) +
      [Turn(c, Block(table, After(table, txs[c], History(events[..n], c)), events[n].argv))]
  }

  predicate TurnsInRange(turns: seq<Turn>, n: nat) {
    forall i :: 0 <= i < |turns| ==> turns[i].client < n
  }

  lemma {:induction false} TurnsRange(table: Table, txs: seq<Tx>, events: seq<Event>)
    requires InRange(events, |txs|)
    ensures |Turns(table, txs, events)| == |events| && TurnsInRange(Turns(table, txs, events), |txs|)
    decreases |events|
  {
    if events != [] {
      TurnsRange(table, txs, events[..|events| - 1]);
    }
  }

  /** A serial run: one turn after the other, each turn's commands in order and alone. */
  function Serial<W, S>(body: Body<W, S>, w: W, ss: seq<S>, turns: seq<Turn>): (r: (W, seq<S>))
    requires TurnsInRange(turns, |ss|)
    ensures |r.1| == |ss|
    decreases |turns|
  {
    if turns == [] then (w, ss) else
    var n := |turns| - 1;
    var before := Serial(body, w, ss, turns[..n]);
    var c := turns[n].client;
    var ran := RunBlock(body, before.0, before.1[c], turns[n].cmds);
    (ran.world, before.1[c := ran.session])
  }

  /** Every interleaving is the serial run of its turns. */
  lemma {:induction false} Serializable<W, S>(table: Table, body: Body<W, S>, st: State<W, S>, events: seq<Event>)
    requires |st.sessions| == |st.txs| && InRange(events, |st.txs|)
    ensures TurnsInRange(Turns(table, st.txs, events), |st.sessions|)
    ensures var r := Play(table, body, st, events);
            (r.world, r.sessions) == Serial(body, st.world, st.sessions, Turns(table, st.txs, events))
    decreases |events|
  {
    TurnsRange(table, st.txs, events);
    if events != [] {
      var n := |events| - 1;
      Serializable(table, body, st, events[..n]);
      OwnHistory(table, body, st, events[..n], events[n].client);
      var turns := Turns(table, st.txs, events);
      TurnsRange(table, st.txs, events[..n]);
      assert turns[..n] == Turns(table, st.txs, events[..n]);
    }
  }

  /** Every client stays sound through every run. */
  lemma {:induction false} AlwaysSound<W, S>(table: Table, body: Body<W, S>, st: State<W, S>, events: seq<Event>)
    requires |st.sessions| == |st.txs| && InRange(events, |st.txs|)
    requires forall c :: 0 <= c < |st.txs| ==> Sound(table, st.txs[c])
    ensures forall c :: 0 <= c < |st.txs| ==> Sound(table, Play(table, body, st, events).txs[c])
    decreases |events|
  {
    if events != [] {
      var n := |events| - 1;
      AlwaysSound(table, body, st, events[..n]);
      var mid := Play(table, body, st, events[..n]);
      NextSound(table, mid.txs[events[n].client], events[n].argv);
    }
  }
}
