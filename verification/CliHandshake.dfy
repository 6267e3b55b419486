/** The handshake of the Varnish CLI server over whole runs, in the status codes of varnish-cli(7): 107 asks for
    authentication, 200 grants it. */
module CliHandshake {
  import opened Common
  import opened Text
  import opened CliFraming
  import opened CliServer
  import opened CliSafety

  /** The first message answers a greeting of 107 with authentication; others follow an answer of 200 to it, and none
      of them is empty. */
  predicate Greeted(c: Conn) {
    && (c.sent != [] ==> |c.replies| >= 1 && c.replies[0].status == 107 && "auth " <= c.sent[0])
    && (|c.sent| >= 2 ==> |c.replies| >= 2 && c.replies[1].status == 200)
    && (forall i :: 1 <= i < |c.sent| ==> c.sent[i] != "")
  }

  predicate AllGreeted(s: State) {
    forall i :: 0 <= i < |s.conns| ==> Greeted(s.conns[i])
  }

  /** Nobody finishes or times out who has not been queued. */
  predicate AllQueued(s: State) {
    forall id :: 0 <= id < |s.callers| && !s.callers[id].Sending? ==> id in s.enqueued
  }

  /** Reading the greeting of a connection. */
  ghost predicate GreetingRead(s: State, pulled: nat, digest: string) {
    var r, next := Current(s).replies, Apply(s, ReadChallenge(pulled, digest));
    && |r| == 1 && next.Some?
    && (r[0].status == 107 ==> next.value.handler == AwaitAuth && Current(next.value).sent == ["auth " + digest])
    && (r[0].status != 107 ==> next.value.handler == Listening && Current(next.value).sent == [])
  }

  lemma GreetingTaken(s: State, pulled: nat, digest: string, r: Reply)
    requires s.handler.AwaitChallenge? && s.conns != [] && OneLine(digest) && CanRead(Current(s), pulled)
    requires Current(s).sent == [] && Current(s).replies == [r] && Decode(Current(s).wire).reply == r
    ensures GreetingRead(s, pulled, digest)
  {
    var c := Current(s).(wire := Current(s).wire[pulled..]);
    assert Written(c, "auth " + digest).sent == ["auth " + digest];
  }

  lemma FirstReply(s: State, pulled: nat) returns (r: Reply)
    requires Handshake(s) && s.handler.AwaitChallenge? && CanRead(Current(s), pulled)
    ensures s.conns != [] && Current(s).sent == [] && Current(s).replies == [r] && Decode(Current(s).wire).reply == r
  {
    ReadUnread(Current(s), 0, pulled);
    r := Current(s).replies[0];
  }

  lemma CurrentGreeted(s: State, step: Step)
    requires Handshake(s) && Greeted(Current(s)) && Apply(s, step).Some?
    requires !TouchesCallers(step) && !step.Accept? && !step.Abandon? && !step.Shutdown?
    ensures Greeted(Current(Apply(s, step).value))
  {
    var c := Current(s);
    if step.ReadChallenge? {
      var r := FirstReply(s, step.pulled);
      GreetingTaken(s, step.pulled, step.digest, r);
      assert ("auth " + step.digest)[..5] == "auth ";
    } else if step.Take? || step.TakeFails? {
      assert Authenticated(c);
    } else if step.ReadAuth? || step.ReadReply? {
      assert Current(Apply(s, step).value) == c.(wire := c.wire[step.pulled..]);
    }
  }

  lemma GreetedStep(s: State, step: Step)
    requires Inv(s) && AllGreeted(s) && Apply(s, step).Some?
    ensures AllGreeted(Apply(s, step).value)
  {
    var s' := Apply(s, step).value;
    if TouchesCallers(step) || step.Abandon? || step.Shutdown? {
      assert s'.conns == s.conns;
    } else if step.Accept? {
      assert forall i :: 0 <= i < |s.conns| ==> s'.conns[i] == s.conns[i];
    } else {
      CurrentGrows(s, step);
      CurrentGreeted(s, step);
      assert forall i :: 0 <= i < |s'.conns| ==> s'.conns[i] == if i == |s.conns| - 1 then Current(s') else s.conns[i];
    }
  }

  lemma QueuedStep(s: State, step: Step)
    requires AllQueued(s) && Apply(s, step).Some?
    ensures AllQueued(Apply(s, step).value)
  {
  }

  lemma {:induction false} GreetedRun(s: State, steps: seq<Step>)
    requires Inv(s) && AllGreeted(s) && AllQueued(s) && Run(s, steps).Some?
    ensures Inv(Run(s, steps).value) && AllGreeted(Run(s, steps).value) && AllQueued(Run(s, steps).value)
    decreases |steps|
  {
    if steps != [] {
      InvStep(s, steps[0]);
      GreetedStep(s, steps[0]);
      QueuedStep(s, steps[0]);
      GreetedRun(Apply(s, steps[0]).value, steps[1..]);
    }
  }

  /** In every run: a connection to which anything was sent was greeted with 107, and one to which a second message was
      sent answered the first with 200; no empty command is ever sent; and a call that got an answer or gave up waiting
      for one had been queued. */
  lemma SentAfterGreeting(steps: seq<Step>, s: State)
    requires Reached(steps, s)
    ensures forall i :: 0 <= i < |s.conns| && |s.conns[i].sent| >= 1 ==>
                          |s.conns[i].replies| >= 1 && s.conns[i].replies[0].status == 107
    ensures forall i :: 0 <= i < |s.conns| && |s.conns[i].sent| >= 2 ==>
                          |s.conns[i].replies| >= 2 && s.conns[i].replies[1].status == 200
    ensures forall i, k :: 0 <= i < |s.conns| && 1 <= k < |s.conns[i].sent| ==> s.conns[i].sent[k] != ""
    ensures forall id :: 0 <= id < |s.callers| && (s.callers[id].Answered? || s.callers[id].TimedOut?) ==>
                           id in s.enqueued
  {
    GreetedRun(INIT, steps);
    forall i | 0 <= i < |s.conns| ensures Greeted(s.conns[i]) {
    }
  }

  /** What is on the wire can be read when it is the one reply expected. */
  lemma CanReadUnread(c: Conn, read: nat)
    requires Unread(c, read) && |c.replies| == read + 1
    ensures CanRead(c, |c.wire|)
  {
    DecodeEncode(c.replies[read], "");
    assert Encode(c.replies[read]) + "" == Encode(c.replies[read]);
  }

  /** In every run, where the handler waits for the greeting: once it has arrived it can be read, and reading it leads
      to authentication if and only if its status is 107, and otherwise back to listening with nothing sent. */
  lemma GreetingDecides(steps: seq<Step>, s: State, pulled: nat, digest: string)
    requires Reached(steps, s) && s.handler.AwaitChallenge? && OneLine(digest)
    ensures |Current(s).replies| == 1 ==> CanRead(Current(s), |Current(s).wire|)
    ensures CanRead(Current(s), pulled) ==> GreetingRead(s, pulled, digest)
  {
    InvRun(INIT, steps);
    if |Current(s).replies| == 1 {
      CanReadUnread(Current(s), 0);
    }
    if CanRead(Current(s), pulled) {
      var r := FirstReply(s, pulled);
      GreetingTaken(s, pulled, digest, r);
    }
  }

  /** Reading the answer to an authentication. */
  ghost predicate AuthAnswerRead(s: State, pulled: nat) {
    var r, next := Current(s).replies, Apply(s, ReadAuth(pulled));
    && |r| == 2 && next.Some?
    && (r[1].status == 200 ==> next.value.handler == Idle && next.value.banner == Some(r[1].body))
    && (r[1].status != 200 ==> next.value.handler == Listening && next.value.banner == s.banner)
  }

  lemma AuthAnswerTaken(s: State, pulled: nat, r: Reply)
    requires s.handler.AwaitAuth? && s.conns != [] && CanRead(Current(s), pulled)
    requires |Current(s).replies| == 2 && Current(s).replies[1] == r && Decode(Current(s).wire).reply == r
    ensures AuthAnswerRead(s, pulled)
  {
  }

  lemma SecondReply(s: State, pulled: nat) returns (r: Reply)
    requires Handshake(s) && s.handler.AwaitAuth? && CanRead(Current(s), pulled)
    ensures s.conns != [] && |Current(s).replies| == 2 && Current(s).replies[1] == r
    ensures Decode(Current(s).wire).reply == r
  {
    ReadUnread(Current(s), 1, pulled);
    r := Current(s).replies[1];
  }

  /** In every run, where the handler waits for the answer to its authentication: once it has arrived it can be read,
      and reading it opens the connection for requests if and only if its status is 200, its text being the banner. */
  lemma AuthAnswerDecides(steps: seq<Step>, s: State, pulled: nat)
    requires Reached(steps, s) && s.handler.AwaitAuth?
    ensures |Current(s).replies| == 2 ==> CanRead(Current(s), |Current(s).wire|)
    ensures CanRead(Current(s), pulled) ==> AuthAnswerRead(s, pulled)
  {
    InvRun(INIT, steps);
    if |Current(s).replies| == 2 {
      CanReadUnread(Current(s), 1);
    }
    if CanRead(Current(s), pulled) {
      var r := SecondReply(s, pulled);
      AuthAnswerTaken(s, pulled, r);
    }
  }

  // ---------------------------------------------------------------- requests and the end

  /** An idle handler of a connection with a request in the queue. */
  predicate Ready(s: State) {
    s.handler.Idle? && s.conns != [] && s.taken < |s.enqueued| && s.enqueued[s.taken] < |s.callers|
  }

  lemma IdleIsReady(s: State)
    requires Tickets(s) && Handshake(s) && s.handler.Idle? && s.taken < |s.enqueued|
    ensures Ready(s)
  {
  }

  lemma TakeWrites(s: State, id: nat)
    requires Ready(s) && id == s.enqueued[s.taken] && s.callers[id].cmd != ""
    ensures Apply(s, Take).Some?
    ensures var s' := Apply(s, Take).value;
            && s'.taken == s.taken + 1 && s'.callers == s.callers && s'.handler == AwaitReply(id)
            && Current(s').sent == Current(s).sent + [s.callers[id].cmd]
  {
    assert Apply(s, Take) == Some(Sent(s, s.callers[id].cmd).(handler := AwaitReply(id)));
  }

  lemma TakeDrops(s: State, id: nat)
    requires Ready(s) && id == s.enqueued[s.taken] && s.callers[id].cmd == ""
    ensures Apply(s, Take) == Some(s.(taken := s.taken + 1, handler := Listening))
  {
  }

  /** In every run, where the handler is idle and a request is queued: an empty command costs the connection and is
      answered to nobody, any other is written as it is, and its reply is awaited for its caller. */
  lemma TakeDecides(steps: seq<Step>, s: State, id: nat)
    requires Reached(steps, s) && s.handler.Idle? && s.taken < |s.enqueued| && id == s.enqueued[s.taken]
    ensures id < |s.callers|
    ensures s.callers[id].cmd == "" ==> Apply(s, Take) == Some(s.(taken := s.taken + 1, handler := Listening))
    ensures s.callers[id].cmd != "" ==>
              && Apply(s, Take).Some?
              && var s' := Apply(s, Take).value;
                 && s'.taken == s.taken + 1 && s'.callers == s.callers && s'.handler == AwaitReply(id)
                 && Current(s').sent == Current(s).sent + [s.callers[id].cmd]
  {
    InvRun(INIT, steps);
    IdleIsReady(s);
    if s.callers[id].cmd == "" {
      TakeDrops(s, id);
    } else {
      TakeWrites(s, id);
    }
  }

  /** A server that is idle or listening can be shut down, and after that nothing is taken, written or answered. */
  lemma {:induction false} StoppedForGood(s: State, steps: seq<Step>)
    requires Run(s, steps).Some? && s.handler.Stopped?
    ensures var s' := Run(s, steps).value;
            && s'.handler.Stopped? && s'.taken == s.taken && s'.writes == s.writes
            && (forall id :: 0 <= id < |s'.callers| && s'.callers[id].Answered? ==>
                               id < |s.callers| && s.callers[id] == s'.callers[id])
    decreases |steps|
  {
    if steps != [] {
      StoppedForGood(Apply(s, steps[0]).value, steps[1..]);
    }
  }

  lemma ShutdownFromIdle(s: State)
    requires s.handler.Idle? || s.handler.Listening?
    ensures Apply(s, Shutdown).Some? && Apply(s, Shutdown).value.handler.Stopped?
  {
  }
}
