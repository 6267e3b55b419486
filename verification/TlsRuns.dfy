/** TLS certificate transactions over whole runs of the mock server. */
module TlsRuns {
  import opened Text
  import opened TlsMock

  datatype Event =
    | Executed(cmd: string, now: Moment)
    | StateSet(certs: seq<Cert>)
    | ResponseSet(cmd: string, response: Response)

  function Happen(st: TlsState, e: Event): TlsState {
    match e
    case Executed(cmd, now) => Answer(st, cmd, now).state
    case StateSet(certs) => TlsState(ById(certs), map[], false, st.responses)
    case ResponseSet(cmd, response) => st.(responses := st.responses[cmd := response])
  }

  function Run(st: TlsState, events: seq<Event>): TlsState
    decreases |events|
  {
    if events == [] then st else Run(Happen(st, events[0]), events[1..])
  }

  /** What the commands of a run are answered, in order. */
  function Responses(st: TlsState, events: seq<Event>): seq<Response>
    decreases |events|
  {
    if events == [] then []
    else
      (if events[0].Executed? then [Answer(st, events[0].cmd, events[0].now).response] else [])
      + Responses(Happen(st, events[0]), events[1..])
  }

  // ---------------------------------------------------------------- what the client sees succeed

  datatype Op = Loading(cert: Cert) | Discarding(id: string)

  /** The change a client may conclude from a command and its response alone: a load or discard answered with
      status 200 took place. */
  function OpSeen(cmd: string, now: Moment, response: Response): seq<Op> {
    if response.status != CLIS_OK || |Fields(cmd)| < 2 then []
    else if LOAD <= cmd then [Loading(Loaded(Fields(cmd)[1], now))]
    else if DISCARD <= cmd then [Discarding(Fields(cmd)[1])]
    else []
  }

  function ApplyOp(certs: Certs, op: Op): Certs {
    match op
    case Loading(cert) => certs[cert.id := cert]
    case Discarding(id) => certs - {id}
  }

  function Replay(certs: Certs, ops: seq<Op>): Certs {
    if ops == [] then certs else ApplyOp(Replay(certs, ops[..|ops| - 1]), ops[|ops| - 1])
  }

  /** Whether the event ends a transaction, as the client sees it. */
  function Ends(st: TlsState, e: Event): bool {
    match e
    case Executed(cmd, now) =>
      (cmd == COMMIT || cmd == ROLLBACK) && Answer(st, cmd, now).response.status == CLIS_OK
    case StateSet(_) => true
    case ResponseSet(_, _) => false
  }

  /** The loads and discards seen to succeed since the last commit, rollback or reset. */
  function SeenSince(st: TlsState, seen: seq<Op>, events: seq<Event>): seq<Op>
    decreases |events|
  {
    if events == [] then seen
    else
      var e := events[0];
      var next :=
        if Ends(st, e) then []
        else if e.Executed? then seen + OpSeen(e.cmd, e.now, Answer(st, e.cmd, e.now).response)
        else seen;
      SeenSince(Happen(st, e), next, events[1..])
  }

  /** While a transaction is open the staged certificates are the committed ones with the changes seen so far;
      otherwise no change has been seen. */
  predicate Explained(st: TlsState, seen: seq<Op>) {
    if st.open then st.staged == Replay(st.committed, seen) else seen == []
  }

  lemma ReplayOne(certs: Certs, ops: seq<Op>, op: Op)
    ensures Replay(certs, ops + [op]) == ApplyOp(Replay(certs, ops), op)
  {
    assert (ops + [op])[..|ops|] == ops;
  }

  /** The prefixes of the certificate commands set them apart. */
  lemma CommandsDiffer(cmd: string)
    ensures LOAD <= cmd ==> !(DISCARD <= cmd) && cmd != COMMIT && cmd != ROLLBACK && cmd != LIST
    ensures DISCARD <= cmd ==> cmd != COMMIT && cmd != ROLLBACK && cmd != LIST
    ensures COMMIT != ROLLBACK && COMMIT != LIST && ROLLBACK != LIST
  {
    assert LOAD[9] == 'l' && LOAD[10] == 'o' && LIST[9] == 'l' && LIST[10] == 'i';
    assert DISCARD[9] == 'd' && COMMIT[9] == 'c' && ROLLBACK[9] == 'r';
    if LOAD <= cmd {
      assert cmd[9] == LOAD[9] && cmd[10] == LOAD[10];
    }
    if DISCARD <= cmd {
      assert cmd[9] == DISCARD[9];
    }
  }

  lemma ExecExplained(st: TlsState, seen: seq<Op>, cmd: string, now: Moment)
    requires Explained(st, seen) && !Ends(st, Executed(cmd, now))
    ensures Explained(Answer(st, cmd, now).state, seen + OpSeen(cmd, now, Answer(st, cmd, now).response))
  {
    CommandsDiffer(cmd);
    var response := Answer(st, cmd, now).response;
    var ops := OpSeen(cmd, now, response);
    if ops == [] {
      assert seen + ops == seen;
    } else {
      ReplayOne(st.committed, seen, ops[0]);
    }
  }

  lemma {:induction false} RunExplained(st: TlsState, seen: seq<Op>, events: seq<Event>)
    requires Explained(st, seen)
    ensures Explained(Run(st, events), SeenSince(st, seen, events))
    decreases |events|
  {
    if events != [] {
      var e := events[0];
      if Ends(st, e) {
        EndExplained(st, e);
        RunExplained(Happen(st, e), [], events[1..]);
      } else if e.Executed? {
        ExecExplained(st, seen, e.cmd, e.now);
        RunExplained(Happen(st, e), seen + OpSeen(e.cmd, e.now, Answer(st, e.cmd, e.now).response), events[1..]);
      } else {
        RunExplained(Happen(st, e), seen, events[1..]);
      }
    }
  }

  lemma EndExplained(st: TlsState, e: Event)
    requires Ends(st, e)
    ensures !Happen(st, e).open
  {
    if e.Executed? {
      CommandsDiffer(e.cmd);
    }
  }

  /** In every run, from any state with no open transaction: a commit that is acknowledged makes the committed
      certificates the old ones with the loads and discards seen to succeed since the transaction began, replayed
      in order. */
  lemma CommitReplays(st: TlsState, events: seq<Event>, now: Moment)
    requires !st.open
    requires Answer(Run(st, events), COMMIT, now).response.status == CLIS_OK
    ensures Answer(Run(st, events), COMMIT, now).state.committed
            == Replay(Run(st, events).committed, SeenSince(st, [], events))
  {
    RunExplained(st, [], events);
    CommandsDiffer(COMMIT);
  }

  /** Committed certificates change only when a commit is acknowledged or the test sets the state. */
  lemma CommittedChangesOnlyAtCommit(st: TlsState, e: Event)
    requires Happen(st, e).committed != st.committed
    ensures e.StateSet? || (e.Executed? && e.cmd == COMMIT && Ends(st, e))
  {
    if e.Executed? {
      CommandsDiffer(e.cmd);
    }
  }

  lemma {:induction false} CommittedKept(st: TlsState, events: seq<Event>)
    requires forall i :: 0 <= i < |events| ==> !events[i].StateSet? && !(events[i].Executed? && events[i].cmd == COMMIT)
    ensures Run(st, events).committed == st.committed
    decreases |events|
  {
    if events != [] {
      if Happen(st, events[0]).committed != st.committed {
        CommittedChangesOnlyAtCommit(st, events[0]);
      }
      CommittedKept(Happen(st, events[0]), events[1..]);
    }
  }

  // ---------------------------------------------------------------- rollback leaves no trace

  /** States no later command can tell apart: outside a transaction the staged certificates do not matter. */
  predicate Alike(a: TlsState, b: TlsState) {
    && a.committed == b.committed && a.open == b.open && a.responses == b.responses
    && (a.open ==> a.staged == b.staged)
  }

  lemma AlikeHandlers(a: TlsState, b: TlsState, cmd: string, now: Moment)
    requires Alike(a, b)
    ensures Load(a, cmd, now).response == Load(b, cmd, now).response
    ensures Alike(Load(a, cmd, now).state, Load(b, cmd, now).state)
    ensures Discard(a, cmd).response == Discard(b, cmd).response
    ensures Alike(Discard(a, cmd).state, Discard(b, cmd).state)
  {
    assert Begin(a).staged == Begin(b).staged;
  }

  lemma AlikeStep(a: TlsState, b: TlsState, e: Event)
    requires Alike(a, b)
    ensures Alike(Happen(a, e), Happen(b, e))
    ensures e.Executed? ==> Answer(a, e.cmd, e.now).response == Answer(b, e.cmd, e.now).response
  {
    if e.Executed? {
      AlikeHandlers(a, b, e.cmd, e.now);
    }
  }

  lemma {:induction false} AlikeResponses(a: TlsState, b: TlsState, events: seq<Event>)
    requires Alike(a, b)
    ensures Responses(a, events) == Responses(b, events)
    decreases |events|
  {
    if events != [] {
      AlikeStep(a, b, events[0]);
      AlikeResponses(Happen(a, events[0]), Happen(b, events[0]), events[1..]);
    }
  }

  lemma {:induction false} ResponsesKept(st: TlsState, events: seq<Event>)
    requires forall i :: 0 <= i < |events| ==> events[i].Executed?
    ensures Run(st, events).responses == st.responses
    decreases |events|
  {
    if events != [] {
      ResponsesKept(Happen(st, events[0]), events[1..]);
    }
  }

  /** A test has overridden rollback with an error: the branch that answers it before the handler is reached. */
  predicate RollbackOverridden(st: TlsState) {
    ROLLBACK in st.responses && st.responses[ROLLBACK].status != CLIS_OK
  }

  predicate OnlyCommands(events: seq<Event>) {
    forall i :: 0 <= i < |events| ==> events[i].Executed? && events[i].cmd != COMMIT
  }

  /** Any commands other than commit, given outside a transaction and followed by a rollback that reaches its
      handler or has nothing to undo, leave every later response as if they had never been given. */
  lemma RollbackLeavesNoTrace(st: TlsState, events: seq<Event>, now: Moment, later: seq<Event>)
    requires !st.open && OnlyCommands(events)
    requires !(RollbackOverridden(st) && Run(st, events).open)
    ensures Responses(Answer(Run(st, events), ROLLBACK, now).state, later) == Responses(st, later)
  {
    CommittedKept(st, events);
    ResponsesKept(st, events);
    CommandsDiffer(ROLLBACK);
    AlikeResponses(Answer(Run(st, events), ROLLBACK, now).state, st, later);
  }

  /** A continuation that tells whether a transaction is open, whatever responses have been set. */
  function Probe(now: Moment): seq<Event> {
    [ResponseSet(COMMIT, Response(CLIS_OK, "")), Executed(COMMIT, now)]
  }

  lemma ProbeTells(st: TlsState, now: Moment)
    ensures Responses(st, Probe(now))
            == [Response(CLIS_OK, if st.open then "TLS certificates committed" else "No changes to commit")]
  {
    CommandsDiffer(COMMIT);
    var ready := Happen(st, Probe(now)[0]);
    assert Probe(now)[1..] == [Executed(COMMIT, now)];
    assert Answer(ready, COMMIT, now) == Commit(ready);
    assert Responses(ready, [Executed(COMMIT, now)]) == [Commit(ready).response] + [];
  }

  /** An overridden rollback of an open transaction forgets nothing: a commit that is not overridden itself still
      makes the staged changes current. */
  lemma OverriddenRollbackKeepsChanges(st: TlsState, now: Moment)
    requires RollbackOverridden(st) && st.open
    requires !(COMMIT in st.responses && st.responses[COMMIT].status != CLIS_OK)
    ensures Answer(st, ROLLBACK, now).state == st
    ensures Answer(Answer(st, ROLLBACK, now).state, COMMIT, now).state.committed == st.staged
  {
    CommandsDiffer(COMMIT);
  }

  /** Exactly when a rollback works: no continuation can tell that the commands were ever given if and only if
      rollback is not overridden with an error while they have left a transaction open. */
  lemma RollbackForgetsExactly(st: TlsState, events: seq<Event>, now: Moment)
    requires !st.open && OnlyCommands(events)
    ensures (forall later :: Responses(Answer(Run(st, events), ROLLBACK, now).state, later) == Responses(st, later))
            <==> !(RollbackOverridden(st) && Run(st, events).open)
  {
    var after := Answer(Run(st, events), ROLLBACK, now).state;
    if RollbackOverridden(st) && Run(st, events).open {
      ResponsesKept(st, events);
      ProbeTells(after, now);
      ProbeTells(st, now);
      assert Responses(after, Probe(now))[0].payload[0] != Responses(st, Probe(now))[0].payload[0];
    } else {
      forall later ensures Responses(after, later) == Responses(st, later) {
        RollbackLeavesNoTrace(st, events, now, later);
      }
    }
  }
}
