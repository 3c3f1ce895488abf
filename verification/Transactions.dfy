/** The dispatcher's transaction machine, with its recursion through EXEC. */
module Transactions {
  import opened TxSpec

  /** The state all clients share. */
  class Store<W> {
    var world: W

    constructor (w: W)
      ensures world == w
    {
      world := w;
    }
  }

  class Client<S> {
    var session: S
    var inMulti: bool
    var multiError: bool
    var multiQueue: seq<Argv>

    constructor (s: S)
      ensures session == s && State() == IDLE
    {
      session, inMulti, multiError, multiQueue := s, false, false, [];
    }

    function State(): Tx
      reads this
    {
      Tx(inMulti, multiError, multiQueue)
    }
  }

  /** How deep the dispatcher recurses from here: EXEC calls it again, and nothing else does. */
  function Depth(argv: Argv): nat {
    if argv != [] && KindOf(argv) == Exec then 1 else 0
  }

  /** The queueing path of a client inside a transaction. */
  method Enqueue<S>(table: Table, cs: Client<S>, argv: Argv) returns (out: seq<Reply>)
    requires argv != [] && cs.inMulti && KindOf(argv) == Ordinary
    modifies cs
    ensures cs.session == old(cs.session) && cs.State() == Next(table, old(cs.State()), argv)
    ensures out == Answer(table, old(cs.State()), argv)
  {
    if !Exists(table, argv) {
      cs.multiError := true;
      return [Error(UnknownCommand)];
    }
    if !Known(table, argv) {
      cs.multiError := true;
      return [Error(WrongArgs)];
    }
    cs.multiQueue := cs.multiQueue + [argv];
    return [Queued];
  }

  /** Runs a queue through the dispatcher, one command after the other. */
  method RunQueue<W, S>(env: Env<W, S>, db: Store<W>, cs: Client<S>, queue: seq<Argv>) returns (out: seq<Reply>)
    requires !cs.inMulti && cs.multiQueue == [] && PlainWrites(env.writes)
    requires forall q :: q in queue ==> Queueable(env.table, q)
    modifies db, cs
    ensures cs.State() == old(cs.State())
    ensures Ran(db.world, cs.session, out) == RunBlock(Gated(env), old(db.world), old(cs.session), queue)
    decreases 1, 0
  {
    out := [];
    ghost var body := Gated(env);
    for i := 0 to |queue|
      invariant cs.State() == old(cs.State())
      invariant Ran(db.world, cs.session, out) == RunBlock(body, old(db.world), old(cs.session), queue[..i])
    {
      assert queue[i] in queue;
      var more := Dispatch(env, db, cs, queue[i]);
      OneCommand(body, old(db.world), old(cs.session), queue[..i], queue[i]);
      assert queue[..i + 1] == queue[..i] + [queue[i]];
      out := out + more;
    }
    assert queue[..|queue|] == queue;
  }

  lemma OneCommand<W, S>(body: Body<W, S>, w: W, s: S, cmds: seq<Argv>, q: Argv)
    ensures var before := RunBlock(body, w, s, cmds);
            var last := RunBlock(body, before.world, before.session, [q]);
            RunBlock(body, w, s, cmds + [q]) == Ran(last.world, last.session, before.out + last.out)
  {
    assert (cmds + [q])[..|cmds|] == cmds && [q][..0] == [];
    var before := RunBlock(body, w, s, cmds);
    assert [] + body(before.world, before.session, q).out == body(before.world, before.session, q).out;
  }

  lemma OneBlock<W, S>(body: Body<W, S>, w: W, s: S, q: Argv)
    ensures RunBlock(body, w, s, [q]) == body(w, s, q)
  {
    OneCommand(body, w, s, [], q);
    assert [q][..0] == [] && [] + body(w, s, q).out == body(w, s, q).out;
  }

  /**
  One command of one client.  The transaction state moves by Next, the replies begin with Answer, and the shared state
  and the session move by the block that takes effect, run in order and alone, each command behind the memory gate.
  */
  method Dispatch<W, S>(env: Env<W, S>, db: Store<W>, cs: Client<S>, argv: Argv) returns (out: seq<Reply>)
    requires Sound(env.table, cs.State()) && PlainWrites(env.writes)
    modifies db, cs
    ensures Sound(env.table, cs.State()) && cs.State() == Next(env.table, old(cs.State()), argv)
    ensures var ran := RunBlock(Gated(env), old(db.world), old(cs.session), Block(env.table, old(cs.State()), argv));
            && db.world == ran.world && cs.session == ran.session
            && out == Answer(env.table, old(cs.State()), argv) + ran.out
    decreases Depth(argv), 1
  {
    NextSound(env.table, cs.State(), argv);
    out := [];
    if argv == [] {
      return;
    }
    var kind := KindOf(argv);
    if cs.inMulti && kind == Ordinary {
      out := Enqueue(env.table, cs, argv);
      return;
    }
    if !Exists(env.table, argv) {
      return [Error(UnknownCommand)];
    }
    if !Known(env.table, argv) {
      return [Error(WrongArgs)];
    }
    OneBlock(Gated(env), db.world, cs.session, argv);
    if Held(env, db.world, argv) {
      return [Error(OutOfMemory)];
    }
    if kind == Multi {
      if cs.inMulti {
        return [Error(NestedMulti)];
      }
      cs.inMulti, cs.multiError, cs.multiQueue := true, false, [];
      return [Ok];
    } else if kind == Exec {
      if !cs.inMulti {
        return [Error(ExecWithoutMulti)];
      }
      if cs.multiError {
        cs.inMulti, cs.multiQueue := false, [];
        return [Error(ExecAbort)];
      }
      var queue := cs.multiQueue;
      cs.multiQueue, cs.inMulti := [], false;
      var replies := RunQueue(env, db, cs, queue);
      out := [ArrayHeader(|queue|)] + replies;
    } else if kind == Discard {
      if !cs.inMulti {
        return [Error(DiscardWithoutMulti)];
      }
      cs.inMulti, cs.multiError, cs.multiQueue := false, false, [];
      return [Ok];
    } else {
      var ran := env.command(db.world, cs.session, argv);
      db.world, cs.session, out := ran.world, ran.session, ran.out;
    }
  }

  /** The clients' objects stand for the states of a run. */
  ghost predicate Shows<W, S>(db: Store<W>, clients: seq<Client<S>>, st: State<W, S>)
    reads db, clients
  {
    && |st.sessions| == |st.txs| == |clients| && db.world == st.world
    && forall i :: 0 <= i < |clients| ==> clients[i].session == st.sessions[i] && clients[i].State() == st.txs[i]
  }

  /** One command of one of the clients. */
  method ServeOne<W, S>(env: Env<W, S>, db: Store<W>, clients: seq<Client<S>>, e: Event, ghost st: State<W, S>)
    returns (out: seq<Reply>)
    requires Shows(db, clients, st) && e.client < |clients| && PlainWrites(env.writes)
    requires forall i, j :: 0 <= i < j < |clients| ==> clients[i] != clients[j]
    requires Sound(env.table, st.txs[e.client])
    modifies db, clients
    ensures Shows(db, clients, StepEvent(env.table, Gated(env), st, e))
    ensures out == EventAnswer(env.table, Gated(env), st, e)
  {
    out := Dispatch(env, db, clients[e.client], e.argv);
  }

  /** A server at work: commands of many clients, in any order, through one dispatcher, with their replies. */
  method Serve<W, S>(env: Env<W, S>, db: Store<W>, clients: seq<Client<S>>, events: seq<Event>, ghost st: State<W, S>)
    returns (replies: seq<seq<Reply>>)
    requires Shows(db, clients, st) && InRange(events, |clients|) && PlainWrites(env.writes)
    requires forall i, j :: 0 <= i < j < |clients| ==> clients[i] != clients[j]
    requires forall i :: 0 <= i < |clients| ==> Sound(env.table, clients[i].State())
    modifies db, clients
    ensures Shows(db, clients, Play(env.table, Gated(env), st, events))
    ensures replies == Answers(env.table, Gated(env), st, events)
  {
    replies := [];
    ghost var table, body, now := env.table, Gated(env), st;
    assert events[..0] == [];
    for n := 0 to |events|
      invariant now == Play(table, body, st, events[..n]) && Shows(db, clients, now)
      invariant replies == Answers(table, body, st, events[..n])
    {
      AlwaysSound(table, body, st, events[..n]);
      PlayMore(table, body, st, events, n, now);
      var out := ServeOne(env, db, clients, events[n], now);
      replies := replies + [out];
      now := StepEvent(table, body, now, events[n]);
    }
    assert events[..|events|] == events;
  }
}
