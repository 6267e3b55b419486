/** Safety of the Varnish CLI server over whole runs: every interleaving of callers, timeouts, connection
    failures and reconnects. */
module CliSafety {
  import opened Common
  import opened Text
  import opened CliFraming
  import opened CliServer

  lemma InvStep(s: State, step: Step)
    requires Inv(s) && Apply(s, step).Some?
    ensures Inv(Apply(s, step).value)
  {
    TicketsStep(s, step);
    PendingStep(s, step);
    InServiceStep(s, step);
    WritesStep(s, step);
    HandshakeStep(s, step);
  }

  lemma {:induction false} InvRun(s: State, steps: seq<Step>)
    requires Inv(s) && Run(s, steps).Some?
    ensures Inv(Run(s, steps).value)
    decreases |steps|
  {
    if steps != [] {
      InvStep(s, steps[0]);
      InvRun(Apply(s, steps[0]).value, steps[1..]);
    }
  }

  predicate Reached(steps: seq<Step>, s: State) {
    Run(INIT, steps) == Some(s)
  }

  /** Each request is written at most once, in queue order, as its caller's command, and only on a connection
      whose authentication the peer answered with status 200. */
  lemma WrittenOnceInOrder(steps: seq<Step>, s: State, i: nat, j: nat)
    requires Reached(steps, s) && i < j < |s.writes|
    ensures GoodWrite(s, s.writes[i]) && GoodWrite(s, s.writes[j])
    ensures s.writes[i].ticket < s.writes[j].ticket
    ensures s.enqueued[s.writes[i].ticket] != s.enqueued[s.writes[j].ticket]
  {
    InvRun(INIT, steps);
  }

  lemma WrittenAuthenticated(steps: seq<Step>, s: State, i: nat)
    requires Reached(steps, s) && i < |s.writes|
    ensures GoodWrite(s, s.writes[i])
    ensures s.conns[s.writes[i].conn].replies[1].status == CLIS_OK
  {
    InvRun(INIT, steps);
  }

  // ---------------------------------------------------------------- a caller that gave up blocks the server

  /** A handler at its send can hand the response over, unless the caller it serves has timed out. */
  lemma OnlyTimeoutBlocks(steps: seq<Step>, s: State)
    requires Reached(steps, s) && s.handler.Delivering?
    ensures s.handler.id < |s.callers|
    ensures Apply(s, Deliver).Some? <==> !s.callers[s.handler.id].TimedOut?
  {
    InvRun(INIT, steps);
  }

  predicate Blocked(s: State) {
    s.handler.Delivering? && s.handler.id < |s.callers| && s.callers[s.handler.id].TimedOut?
  }

  /** Once the served caller has timed out the handler stays at its send for good: in every continuation no
      request is taken from the queue, nothing is written and nobody is answered. */
  lemma {:induction false} BlockedForGood(s: State, steps: seq<Step>)
    requires Blocked(s) && Run(s, steps).Some?
    ensures var s' := Run(s, steps).value;
            && Blocked(s') && s'.handler == s.handler
            && s'.taken == s.taken && s'.writes == s.writes
            && |s.callers| <= |s'.callers|
            && (forall id :: 0 <= id < |s'.callers| && s'.callers[id].Answered? ==>
                               id < |s.callers| && s.callers[id] == s'.callers[id])
    decreases |steps|
  {
    if steps != [] {
      BlockedForGood(Apply(s, steps[0]).value, steps[1..]);
    }
  }

  // ---------------------------------------------------------------- whose reply a caller receives

  /** The reply the caller received is the peer's reply to a line of the message that was written for this very
      call. */
  ghost predicate OwnReply(s: State, id: nat)
    requires id < |s.callers| && s.callers[id].Answered?
  {
    exists k, j :: 0 <= k < |s.writes| && 0 <= j && RepliesTo(s, id, s.writes[k], j)
  }

  predicate RepliesTo(s: State, id: nat, w: Write, j: nat)
    requires id < |s.callers| && s.callers[id].Answered?
  {
    && w.ticket < |s.enqueued| && s.enqueued[w.ticket] == id
    && w.conn < |s.conns|
    && j < |s.conns[w.conn].replies| && j < |s.conns[w.conn].due|
    && s.conns[w.conn].due[j] == w.index + 1
    && s.conns[w.conn].replies[j] == s.callers[id].reply
  }

  /** When every message is one line the peer owes exactly one reply a message, in order. */
  predicate Numbered(c: Conn) {
    |c.due| == |c.sent| + 1 && forall j :: 0 <= j < |c.due| ==> c.due[j] == j
  }

  predicate AllOneLine(s: State) {
    forall id :: 0 <= id < |s.callers| ==> OneLine(s.callers[id].cmd)
  }

  predicate AllNumbered(s: State) {
    forall i :: 0 <= i < |s.conns| ==> Numbered(s.conns[i])
  }

  /** The wire never holds more than the one response the handler waits for. */
  predicate InLockstep(s: State) {
    var c := Current(s);
    match s.handler
    case Idle => |c.replies| == |c.sent| + 1 && c.wire == ""
    case AwaitReply(_) => Unread(c, |c.sent|)
    case Delivering(_, reply) => |c.replies| == |c.sent| + 1 && c.wire == "" && reply == c.replies[|c.sent|]
    case _ => true
  }

  ghost predicate AllOwn(s: State) {
    forall id :: 0 <= id < |s.callers| && s.callers[id].Answered? ==> OwnReply(s, id)
  }

  ghost predicate Sync(s: State) {
    AllOneLine(s) && AllNumbered(s) && InLockstep(s) && AllOwn(s)
  }

  lemma WrittenNumbered(c: Conn, cmd: string)
    requires Numbered(c) && OneLine(cmd)
    ensures Numbered(Written(c, cmd))
  {
    OneLineCount(cmd);
  }

  lemma SetLastNumbered(s: State, c: Conn)
    requires AllNumbered(s) && s.conns != [] && Numbered(c)
    ensures forall i :: 0 <= i < |s.conns| ==> Numbered(SetLast(s.conns, c)[i])
  {
  }

  /** A step on the current connection keeps its messages numbered. */
  lemma CurrentNumbered(s: State, step: Step)
    requires AllNumbered(s) && AllOneLine(s) && Apply(s, step).Some?
    requires !TouchesCallers(step) && !step.Accept? && !step.Abandon? && !step.Shutdown?
    ensures Numbered(Current(Apply(s, step).value))
  {
    assert Numbered(Current(s));
    match step
    case ReadChallenge(pulled, digest) =>
      var cmd := "auth " + digest;
      assert OneLine(cmd);
      WrittenNumbered(Current(s).(wire := Current(s).wire[pulled..]), cmd);
    case Take =>
      WrittenNumbered(Current(s), s.callers[s.enqueued[s.taken]].cmd);
    case TakeFails(_) =>
      WrittenNumbered(Current(s), s.callers[s.enqueued[s.taken]].cmd);
    case _ =>
  }

  lemma NumberedStep(s: State, step: Step)
    requires AllNumbered(s) && AllOneLine(s) && Apply(s, step).Some?
    ensures AllNumbered(Apply(s, step).value)
  {
    var s' := Apply(s, step).value;
    if TouchesCallers(step) || step.Abandon? || step.Shutdown? {
      assert s'.conns == s.conns;
    } else if step.Accept? {
      assert forall i :: 0 <= i < |s.conns| ==> s'.conns[i] == s.conns[i];
    } else {
      CurrentGrows(s, step);
      CurrentNumbered(s, step);
      SetLastNumbered(s, Current(s'));
    }
  }

  lemma LockstepAuth(s: State, step: Step)
    requires Handshake(s) && Apply(s, step).Some? && step.ReadAuth?
    ensures InLockstep(Apply(s, step).value)
  {
    ReadUnread(Current(s), 1, step.pulled);
  }

  lemma LockstepRead(s: State, step: Step)
    requires InLockstep(s) && Apply(s, step).Some? && step.ReadReply?
    ensures InLockstep(Apply(s, step).value)
  {
    ReadUnread(Current(s), |Current(s).sent|, step.pulled);
  }

  lemma LockstepReplies(s: State, step: Step)
    requires InLockstep(s) && AllNumbered(s) && Apply(s, step).Some? && step.PeerReply?
    ensures InLockstep(Apply(s, step).value)
  {
    assert Numbered(Current(s));
    assert "" + Encode(step.reply) == Encode(step.reply);
  }

  lemma LockstepStep(s: State, step: Step)
    requires Handshake(s) && InLockstep(s) && AllNumbered(s) && Apply(s, step).Some?
    ensures InLockstep(Apply(s, step).value)
  {
    if step.ReadAuth? {
      LockstepAuth(s, step);
    } else if step.ReadReply? {
      LockstepRead(s, step);
    } else if step.PeerReply? {
      LockstepReplies(s, step);
    } else if TouchesCallers(step) {
      assert Apply(s, step).value.conns == s.conns;
    }
  }

  lemma OwnReplyStays(s: State, s': State, id: nat)
    requires Grows(s, s')
    requires id < |s.callers| && s.callers[id].Answered? && s'.callers[id] == s.callers[id] && OwnReply(s, id)
    ensures OwnReply(s', id)
  {
    var k, j :| 0 <= k < |s.writes| && 0 <= j && RepliesTo(s, id, s.writes[k], j);
    assert ConnGrows(s.conns[s.writes[k].conn], s'.conns[s.writes[k].conn]);
    assert RepliesTo(s', id, s'.writes[k], j);
  }

  lemma DeliveredIsOwn(s: State)
    requires Inv(s) && Sync(s) && Apply(s, Deliver).Some?
    ensures var s' := Apply(s, Deliver).value;
            s'.callers[s.handler.id].Answered? && OwnReply(s', s.handler.id)
  {
    var s' := Apply(s, Deliver).value;
    var k := |s.writes| - 1;
    var w := s.writes[k];
    assert Newest(s, w) && GoodWrite(s, w);
    assert Numbered(Current(s));
    assert RepliesTo(s', s.handler.id, s'.writes[k], w.index + 1);
  }

  lemma AnswersComeByDelivery(s: State, step: Step, id: nat)
    requires Apply(s, step).Some? && id < |Apply(s, step).value.callers|
    requires Apply(s, step).value.callers[id].Answered? && !(step.Deliver? && id == s.handler.id)
    ensures id < |s.callers| && s.callers[id] == Apply(s, step).value.callers[id]
  {
  }

  lemma AnswersStep(s: State, step: Step)
    requires Inv(s) && Sync(s) && Apply(s, step).Some?
    ensures AllOwn(Apply(s, step).value)
  {
    var s' := Apply(s, step).value;
    StepGrows(s, step);
    forall id | 0 <= id < |s'.callers| && s'.callers[id].Answered? ensures OwnReply(s', id) {
      if step.Deliver? && id == s.handler.id {
        DeliveredIsOwn(s);
      } else {
        AnswersComeByDelivery(s, step, id);
        OwnReplyStays(s, s', id);
      }
    }
  }

  lemma OneLineStep(s: State, step: Step)
    requires AllOneLine(s) && Apply(s, step).Some? && (step.Call? ==> OneLine(step.cmd))
    ensures AllOneLine(Apply(s, step).value)
  {
  }

  lemma SyncStep(s: State, step: Step)
    requires Inv(s) && Sync(s) && Apply(s, step).Some? && (step.Call? ==> OneLine(step.cmd))
    ensures Inv(Apply(s, step).value) && Sync(Apply(s, step).value)
  {
    InvStep(s, step);
    OneLineStep(s, step);
    NumberedStep(s, step);
    LockstepStep(s, step);
    AnswersStep(s, step);
  }

  lemma {:induction false} SyncRun(s: State, steps: seq<Step>)
    requires Inv(s) && Sync(s) && Run(s, steps).Some?
    requires forall i :: 0 <= i < |steps| && steps[i].Call? ==> OneLine(steps[i].cmd)
    ensures Inv(Run(s, steps).value) && Sync(Run(s, steps).value)
    decreases |steps|
  {
    if steps != [] {
      SyncStep(s, steps[0]);
      SyncRun(Apply(s, steps[0]).value, steps[1..]);
    }
  }

  /** As long as commands are single lines, in every interleaving any response a caller receives is the peer's
      reply to that caller's own command. */
  lemma RepliesAreOwn(steps: seq<Step>, s: State, id: nat)
    requires Reached(steps, s)
    requires forall i :: 0 <= i < |steps| && steps[i].Call? ==> OneLine(steps[i].cmd)
    requires id < |s.callers| && s.callers[id].Answered?
    ensures OwnReply(s, id)
  {
    SyncRun(INIT, steps);
  }
}
