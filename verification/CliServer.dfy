/** The Varnish CLI server of `pkg/varnishadm/varnishadm.go` as a state machine over the steps of its goroutines:
    callers of Exec, their timeouts, the capacity-1 request channel, the single connection handler, the private
    unbuffered response channels, reconnects, and the bytes on the wire.

    The peer answers in lockstep: one greeting on every connection, then one reply for each line it receives.
    Every read goes through a fresh buffer that may pull more bytes than the response it returns and drops the
    excess. */
module CliServer {
  import opened Common
  import opened Text
  import opened CliFraming

  const CLIS_AUTH := 107
  const CLIS_OK := 200

  /** One call of Exec: blocked on the request channel, waiting for the response, or finished. */
  datatype Caller =
    | Sending(cmd: string)
    | Waiting(cmd: string)
    | Answered(cmd: string, reply: Reply)
    | TimedOut(cmd: string)

  datatype Handler =
    | Listening
    | AwaitChallenge
    | AwaitAuth
    | Idle
    | AwaitReply(id: nat)
    | Delivering(id: nat, reply: Reply)
    | Stopped

  /** The life of one connection: what was written to it, what the peer replied, the bytes not yet pulled, and
      for every line the peer received which message it belongs to.  Reply j answers message due[j]: 0 is the
      greeting, k + 1 is sent[k]. */
  datatype Conn = Conn(sent: seq<string>, due: seq<nat>, replies: seq<Reply>, wire: string)

  /** The request with the given place in the queue was written as message `index` of a connection. */
  datatype Write = Write(ticket: nat, conn: nat, index: nat)

  /** `enqueued` is the history of the request channel: what is past `taken` is still in it.  The last of `conns`
      is the current connection. */
  datatype State = State(
    callers: seq<Caller>,
    enqueued: seq<nat>,
    taken: nat,
    handler: Handler,
    conns: seq<Conn>,
    writes: seq<Write>,
    banner: Option<string>)

  datatype Step =
    | Call(cmd: string)
    | Enqueue(id: nat)
    | Expire(id: nat)
    | Accept
    | PeerReply(reply: Reply)
    | ReadChallenge(pulled: nat, digest: string)
    | ReadAuth(pulled: nat)
    | Take
    | TakeFails(reached: bool)
    | ReadReply(pulled: nat)
    | Deliver
    | Abandon
    | Shutdown

  const INIT := State([], [], 0, Listening, [], [], None)

  /** The lines the peer sees in a command followed by a newline. */
  function LineCount(cmd: string): nat {
    if cmd == [] then 1 else (if cmd[0] == '\n' then 1 else 0) + LineCount(cmd[1..])
  }

  function Repeat(x: nat, n: nat): seq<nat> {
    seq(n, _ => x)
  }

  function Written(c: Conn, cmd: string): Conn {
    c.(sent := c.sent + [cmd], due := c.due + Repeat(|c.sent| + 1, LineCount(cmd)))
  }

  function SetLast(conns: seq<Conn>, c: Conn): seq<Conn>
    requires conns != []
  {
    conns[|conns| - 1 := c]
  }

  /** The connection accepted last; a blank one before the first is accepted. */
  function Current(s: State): Conn {
    if s.conns != [] then s.conns[|s.conns| - 1] else Conn([], [], [], "")
  }

  /** A read that succeeds, pulling the given number of bytes: less than a buffer more than the response has. */
  predicate CanRead(c: Conn, pulled: nat) {
    && Decode(c.wire).Frame?
    && Decode(c.wire).length <= pulled <= |c.wire|
    && pulled < Decode(c.wire).length + BUFFER_SIZE
  }

  /** The state after a step, if the step can be taken. */
  function Apply(s: State, step: Step): Option<State> {
    match step
    case Call(cmd) => Some(s.(callers := s.callers + [Sending(cmd)]))
    case Enqueue(id) =>
      if id < |s.callers| && s.callers[id].Sending? && |s.enqueued| <= s.taken then
        Some(s.(callers := s.callers[id := Waiting(s.callers[id].cmd)], enqueued := s.enqueued + [id]))
      else None
    case Expire(id) =>
      if id < |s.callers| && s.callers[id].Waiting? then
        Some(s.(callers := s.callers[id := TimedOut(s.callers[id].cmd)]))
      else None
    case Accept =>
      if s.handler.Listening? then
        Some(s.(handler := AwaitChallenge, conns := s.conns + [Conn([], [0], [], "")], banner := None))
      else None
    case PeerReply(reply) =>
      if s.conns != [] && |Current(s).replies| < |Current(s).due| && Encodable(reply) then
        var c := Current(s);
        Some(s.(conns := SetLast(s.conns, c.(replies := c.replies + [reply], wire := c.wire + Encode(reply)))))
      else None
    case ReadChallenge(pulled, digest) =>
      if s.handler.AwaitChallenge? && s.conns != [] && CanRead(Current(s), pulled) && OneLine(digest) then
        var c := Current(s);
        var reply, c' := Decode(c.wire).reply, c.(wire := c.wire[pulled..]);
        if reply.status == CLIS_AUTH then
          Some(s.(handler := AwaitAuth, conns := SetLast(s.conns, Written(c', "auth " + digest))))
        else Some(s.(handler := Listening, conns := SetLast(s.conns, c')))
      else None
    case ReadAuth(pulled) =>
      if s.handler.AwaitAuth? && s.conns != [] && CanRead(Current(s), pulled) then
        var c := Current(s);
        var reply, conns' := Decode(c.wire).reply, SetLast(s.conns, c.(wire := c.wire[pulled..]));
        if reply.status == CLIS_OK then Some(s.(handler := Idle, conns := conns', banner := Some(reply.body)))
        else Some(s.(handler := Listening, conns := conns'))
      else None
    case Take =>
      if s.handler.Idle? && s.conns != [] && s.taken < |s.enqueued| && s.enqueued[s.taken] < |s.callers| then
        var id := s.enqueued[s.taken];
        var cmd := s.callers[id].cmd;
        if cmd == "" then Some(s.(taken := s.taken + 1, handler := Listening))
        else Some(Sent(s, cmd).(handler := AwaitReply(id)))
      else None
    case TakeFails(reached) =>
      if s.handler.Idle? && s.conns != [] && s.taken < |s.enqueued| && s.enqueued[s.taken] < |s.callers| then
        var cmd := s.callers[s.enqueued[s.taken]].cmd;
        if reached && cmd != "" then Some(Sent(s, cmd).(handler := Listening))
        else Some(s.(taken := s.taken + 1, handler := Listening))
      else None
    case ReadReply(pulled) =>
      if s.handler.AwaitReply? && s.conns != [] && CanRead(Current(s), pulled) then
        var c := Current(s);
        Some(s.(handler := Delivering(s.handler.id, Decode(c.wire).reply),
                conns := SetLast(s.conns, c.(wire := c.wire[pulled..]))))
      else None
    case Deliver =>
      if s.handler.Delivering? && s.handler.id < |s.callers| && s.callers[s.handler.id].Waiting? then
        var id := s.handler.id;
        Some(s.(handler := Idle, callers := s.callers[id := Answered(s.callers[id].cmd, s.handler.reply)]))
      else None
    case Abandon =>
      if s.handler.AwaitChallenge? || s.handler.AwaitAuth? || s.handler.AwaitReply? then
        Some(s.(handler := Listening))
      else None
    case Shutdown =>
      if s.handler.Listening? || s.handler.Idle? then Some(s.(handler := Stopped)) else None
  }

  /** The next request leaves the queue and is written to the current connection. */
  function Sent(s: State, cmd: string): State
    requires s.conns != []
  {
    var c := Current(s);
    s.(taken := s.taken + 1,
       conns := SetLast(s.conns, Written(c, cmd)),
       writes := s.writes + [Write(s.taken, |s.conns| - 1, |c.sent|)])
  }

  function Run(s: State, steps: seq<Step>): Option<State>
    decreases |steps|
  {
    if steps == [] then Some(s)
    else
      var next := Apply(s, steps[0]);
      if next.Some? then Run(next.value, steps[1..]) else None
  }

  // ---------------------------------------------------------------- what every run keeps

  predicate Unanswered(c: Caller) {
    c.Waiting? || c.TimedOut?
  }

  predicate Serving(h: Handler) {
    h.AwaitReply? || h.Delivering?
  }

  /** The peer accepted the authentication sent on this connection. */
  predicate Authenticated(c: Conn) {
    && |c.sent| >= 1 && |c.replies| >= 2 && |c.due| >= 2
    && c.due[0] == 0 && c.due[1] == 1 && c.replies[1].status == CLIS_OK
  }

  predicate GoodWrite(s: State, w: Write) {
    && w.ticket < s.taken && w.ticket < |s.enqueued| && s.enqueued[w.ticket] < |s.callers|
    && w.conn < |s.conns|
    && 1 <= w.index < |s.conns[w.conn].sent|
    && s.conns[w.conn].sent[w.index] == s.callers[s.enqueued[w.ticket]].cmd
    && Authenticated(s.conns[w.conn])
  }

  /** The request channel holds at most one request, and every call is enqueued at most once. */
  predicate Tickets(s: State) {
    && s.taken <= |s.enqueued| <= s.taken + 1
    && (forall i, j :: 0 <= i < j < |s.enqueued| ==> s.enqueued[i] != s.enqueued[j])
    && (forall i :: 0 <= i < |s.enqueued| ==> s.enqueued[i] < |s.callers| && !s.callers[s.enqueued[i]].Sending?)
  }

  /** Nobody is answered before the request was taken from the queue. */
  predicate Pending(s: State)
    requires Tickets(s)
  {
    forall i :: s.taken <= i < |s.enqueued| ==> Unanswered(s.callers[s.enqueued[i]])
  }

  /** The request being served is the one taken last, and its caller has not been answered. */
  predicate InService(s: State)
    requires Tickets(s)
  {
    Serving(s.handler) ==>
      && s.taken > 0 && s.enqueued[s.taken - 1] == s.handler.id
      && Unanswered(s.callers[s.handler.id])
      && s.writes != [] && Newest(s, s.writes[|s.writes| - 1])
  }

  /** The write of the request taken last is the last message of the current connection. */
  predicate Newest(s: State, w: Write) {
    w.ticket + 1 == s.taken && w.conn + 1 == |s.conns| && w.index + 1 == |Current(s).sent|
  }

  predicate Writes(s: State) {
    && (forall k :: 0 <= k < |s.writes| ==> GoodWrite(s, s.writes[k]))
    && (forall i, j :: 0 <= i < j < |s.writes| ==> s.writes[i].ticket < s.writes[j].ticket)
  }

  /** The handler has read `read` replies; at most one more has been sent and is whole on the wire. */
  predicate Unread(c: Conn, read: nat) {
    && read <= |c.replies| <= read + 1
    && (|c.replies| == read ==> c.wire == "")
    && (|c.replies| == read + 1 ==> Encodable(c.replies[read]) && c.wire == Encode(c.replies[read]))
  }

  /** How far the handshake of the current connection has come. */
  predicate Handshake(s: State) {
    var c := Current(s);
    match s.handler
    case Listening => true
    case Stopped => true
    case AwaitChallenge => s.conns != [] && c.sent == [] && c.due == [0] && Unread(c, 0)
    case AwaitAuth => s.conns != [] && |c.sent| == 1 && c.due == [0, 1] && Unread(c, 1)
    case _ => s.conns != [] && Authenticated(c) && s.banner == Some(c.replies[1].body)
  }

  predicate Inv(s: State) {
    Tickets(s) && Pending(s) && InService(s) && Writes(s) && Handshake(s)
  }

  // ---------------------------------------------------------------- histories only grow

  predicate ConnGrows(c: Conn, c': Conn) {
    c.sent <= c'.sent && c.due <= c'.due && c.replies <= c'.replies
  }

  predicate Grows(s: State, s': State) {
    && |s.callers| <= |s'.callers|
    && (forall id :: 0 <= id < |s.callers| ==> s'.callers[id].cmd == s.callers[id].cmd)
    && s.enqueued <= s'.enqueued && s.taken <= s'.taken && s.writes <= s'.writes
    && |s.conns| <= |s'.conns|
    && (forall i :: 0 <= i < |s.conns| ==> ConnGrows(s.conns[i], s'.conns[i]))
  }

  predicate TouchesCallers(step: Step) {
    step.Call? || step.Enqueue? || step.Expire? || step.Deliver?
  }

  lemma WrittenGrows(c: Conn, pulled: nat, cmd: string)
    requires pulled <= |c.wire|
    ensures ConnGrows(c, Written(c.(wire := c.wire[pulled..]), cmd)) && ConnGrows(c, Written(c, cmd))
  {
  }

  /** Steps on the current connection change no other. */
  lemma CurrentGrows(s: State, step: Step)
    requires Apply(s, step).Some?
    requires !TouchesCallers(step) && !step.Accept? && !step.Abandon? && !step.Shutdown?
    ensures var s' := Apply(s, step).value;
            s.conns != [] && s'.conns == SetLast(s.conns, Current(s')) && ConnGrows(Current(s), Current(s'))
  {
    var s' := Apply(s, step).value;
    match step
    case ReadChallenge(pulled, digest) =>
      WrittenGrows(Current(s), pulled, "auth " + digest);
    case Take =>
      WrittenGrows(Current(s), 0, s.callers[s.enqueued[s.taken]].cmd);
    case TakeFails(_) =>
      WrittenGrows(Current(s), 0, s.callers[s.enqueued[s.taken]].cmd);
    case _ =>
  }

  lemma ConnsGrow(s: State, step: Step)
    requires Apply(s, step).Some?
    ensures var s' := Apply(s, step).value;
            && |s.conns| <= |s'.conns|
            && forall i :: 0 <= i < |s.conns| ==> ConnGrows(s.conns[i], s'.conns[i])
  {
    var s' := Apply(s, step).value;
    if TouchesCallers(step) || step.Abandon? || step.Shutdown? {
      assert s'.conns == s.conns;
    } else if step.Accept? {
      assert forall i :: 0 <= i < |s.conns| ==> s'.conns[i] == s.conns[i];
    } else {
      CurrentGrows(s, step);
    }
  }

  lemma StepGrows(s: State, step: Step)
    requires Apply(s, step).Some?
    ensures Grows(s, Apply(s, step).value)
  {
    ConnsGrow(s, step);
    var s' := Apply(s, step).value;
    if !TouchesCallers(step) {
      assert s'.callers == s.callers && s'.enqueued == s.enqueued;
    } else {
      assert s'.conns == s.conns && s'.writes == s.writes && s'.taken == s.taken;
    }
  }

  lemma GoodWriteStays(s: State, s': State, w: Write)
    requires Grows(s, s') && GoodWrite(s, w)
    ensures GoodWrite(s', w)
  {
    assert ConnGrows(s.conns[w.conn], s'.conns[w.conn]);
  }

  lemma TicketsStep(s: State, step: Step)
    requires Tickets(s) && Apply(s, step).Some?
    ensures Tickets(Apply(s, step).value)
  {
    var s' := Apply(s, step).value;
    if !TouchesCallers(step) {
      assert s'.callers == s.callers && s'.enqueued == s.enqueued && s.taken <= s'.taken <= |s.enqueued|;
    } else if !step.Enqueue? {
      assert s'.enqueued == s.enqueued && s'.taken == s.taken;
    }
  }

  lemma PendingStep(s: State, step: Step)
    requires Tickets(s) && Pending(s) && InService(s) && Apply(s, step).Some?
    requires Tickets(Apply(s, step).value)
    ensures Pending(Apply(s, step).value)
  {
    var s' := Apply(s, step).value;
    if !TouchesCallers(step) {
      assert s'.callers == s.callers && s'.enqueued == s.enqueued && s.taken <= s'.taken;
    }
  }

  lemma InServiceTake(s: State, step: Step)
    requires Tickets(s) && Pending(s) && Apply(s, step).Some? && step.Take?
    requires Tickets(Apply(s, step).value)
    ensures InService(Apply(s, step).value)
  {
    var s' := Apply(s, step).value;
    if Serving(s'.handler) {
      assert s'.writes[|s'.writes| - 1] == Write(s.taken, |s.conns| - 1, |Current(s).sent|);
    }
  }

  lemma InServiceRead(s: State, step: Step)
    requires Tickets(s) && InService(s) && Apply(s, step).Some? && (step.PeerReply? || step.ReadReply?)
    requires Tickets(Apply(s, step).value)
    ensures InService(Apply(s, step).value)
  {
    var s' := Apply(s, step).value;
    assert Current(s').sent == Current(s).sent;
  }

  lemma InServiceCallers(s: State, step: Step)
    requires Tickets(s) && InService(s) && Apply(s, step).Some?
    requires step.Call? || step.Enqueue? || step.Expire?
    requires Tickets(Apply(s, step).value)
    ensures InService(Apply(s, step).value)
  {
    var s' := Apply(s, step).value;
    if Serving(s.handler) {
      assert s'.enqueued[s.taken - 1] == s.enqueued[s.taken - 1];
      assert s'.writes == s.writes && Newest(s', s'.writes[|s'.writes| - 1]);
    }
  }

  lemma InServiceStep(s: State, step: Step)
    requires Inv(s) && Apply(s, step).Some?
    requires Tickets(Apply(s, step).value)
    ensures InService(Apply(s, step).value)
  {
    if step.Take? {
      InServiceTake(s, step);
    } else if step.PeerReply? || step.ReadReply? {
      InServiceRead(s, step);
    } else if step.Call? || step.Enqueue? || step.Expire? {
      InServiceCallers(s, step);
    } else {
      assert !Serving(Apply(s, step).value.handler);
    }
  }

  /** The write that takes a request off the queue. */
  lemma NewWriteGood(s: State, step: Step)
    requires Tickets(s) && Handshake(s) && Apply(s, step).Some? && (step.Take? || step.TakeFails?)
    ensures var s' := Apply(s, step).value;
            && s.writes <= s'.writes && |s'.writes| <= |s.writes| + 1
            && (|s'.writes| > |s.writes| ==>
                  s'.writes[|s.writes|].ticket == s.taken && GoodWrite(s', s'.writes[|s.writes|]))
  {
  }

  lemma OldWritesStay(s: State, s': State)
    requires Grows(s, s') && Writes(s)
    ensures forall k :: 0 <= k < |s.writes| ==> s'.writes[k] == s.writes[k] && GoodWrite(s', s'.writes[k])
  {
    forall k | 0 <= k < |s.writes| ensures s'.writes[k] == s.writes[k] && GoodWrite(s', s'.writes[k]) {
      GoodWriteStays(s, s', s.writes[k]);
    }
  }

  /** Extending good, ordered writes by at most one that is good and newer keeps them good and ordered. */
  lemma WritesExtend(s: State, s': State)
    requires Grows(s, s') && Writes(s) && |s'.writes| <= |s.writes| + 1
    requires |s'.writes| > |s.writes| ==>
               s'.writes[|s.writes|].ticket == s.taken && GoodWrite(s', s'.writes[|s.writes|])
    ensures Writes(s')
  {
    OldWritesStay(s, s');
    forall i, j | 0 <= i < j < |s'.writes| ensures s'.writes[i].ticket < s'.writes[j].ticket {
      assert GoodWrite(s, s.writes[i]);
    }
  }

  lemma WritesStep(s: State, step: Step)
    requires Tickets(s) && Handshake(s) && Writes(s) && Apply(s, step).Some?
    ensures Writes(Apply(s, step).value)
  {
    var s' := Apply(s, step).value;
    StepGrows(s, step);
    if step.Take? || step.TakeFails? {
      NewWriteGood(s, step);
    } else {
      assert s'.writes == s.writes;
    }
    WritesExtend(s, s');
  }

  /** With one response on the wire, a read returns it and leaves the wire empty. */
  lemma ReadUnread(c: Conn, read: nat, pulled: nat)
    requires Unread(c, read) && CanRead(c, pulled)
    ensures |c.replies| == read + 1 && Decode(c.wire).reply == c.replies[read] && c.wire[pulled..] == ""
  {
    if |c.replies| == read + 1 {
      DecodeEncode(c.replies[read], "");
      assert Encode(c.replies[read]) + "" == Encode(c.replies[read]);
    }
  }

  lemma {:induction false} OneLineCount(cmd: string)
    requires OneLine(cmd)
    ensures LineCount(cmd) == 1
  {
    if cmd != [] {
      OneLineCount(cmd[1..]);
    }
  }

  lemma AuthWritten(c: Conn, digest: string)
    requires c.sent == [] && c.due == [0] && OneLine(digest)
    ensures Written(c, "auth " + digest).due == [0, 1]
  {
    var cmd := "auth " + digest;
    assert OneLine(cmd);
    OneLineCount(cmd);
    assert [0] + Repeat(1, 1) == [0, 1];
  }

  lemma HandshakeReads(s: State, step: Step)
    requires Handshake(s) && Apply(s, step).Some?
    requires step.ReadChallenge? || step.ReadAuth?
    ensures Handshake(Apply(s, step).value)
  {
    var c := Current(s);
    var c' := c.(wire := c.wire[step.pulled..]);
    if step.ReadChallenge? {
      ReadUnread(c, 0, step.pulled);
      AuthWritten(c', step.digest);
    } else {
      ReadUnread(c, 1, step.pulled);
    }
  }

  lemma HandshakeReplies(s: State, step: Step)
    requires Handshake(s) && Apply(s, step).Some? && step.PeerReply?
    ensures Handshake(Apply(s, step).value)
  {
    var c, c' := Current(s), Current(Apply(s, step).value);
    assert "" + Encode(step.reply) == Encode(step.reply);
    assert Authenticated(c) ==> Authenticated(c') && c'.replies[1] == c.replies[1];
  }

  lemma HandshakeStep(s: State, step: Step)
    requires Handshake(s) && Apply(s, step).Some?
    ensures Handshake(Apply(s, step).value)
  {
    var s' := Apply(s, step).value;
    if step.ReadChallenge? || step.ReadAuth? {
      HandshakeReads(s, step);
    } else if step.PeerReply? {
      HandshakeReplies(s, step);
    } else if TouchesCallers(step) || step.Abandon? || step.Shutdown? {
      assert s'.conns == s.conns && s'.banner == s.banner;
    } else if step.Accept? {
      assert Current(s') == Conn([], [0], [], "");
    } else {
      assert Authenticated(Current(s)) && Authenticated(Current(s'));
    }
  }
}
