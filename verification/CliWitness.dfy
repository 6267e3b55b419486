/** Runs of the Varnish CLI server that show what can go wrong: a caller that times out blocks the handler, and a
    command holding a newline hands one caller a reply that was meant for another. */
module CliWitness {
  import opened Common
  import opened Text
  import opened CliFraming
  import opened CliServer
  import opened CliSafety

  const GREETING := Reply(CLIS_AUTH, "")
  const WELCOME := Reply(CLIS_OK, "")

  lemma {:induction false} RunExtends(s: State, steps: seq<Step>, step: Step)
    requires Run(s, steps).Some? && Apply(Run(s, steps).value, step).Some?
    ensures Run(s, steps + [step]) == Apply(Run(s, steps).value, step)
    decreases |steps|
  {
    if steps == [] {
      assert [] + [step] == [step];
      assert [step][1..] == [];
    } else {
      assert (steps + [step])[1..] == steps[1..] + [step];
      RunExtends(Apply(s, steps[0]).value, steps[1..], step);
    }
  }

  lemma Extend(steps: seq<Step>, s: State, step: Step) returns (steps': seq<Step>, s': State)
    requires Reached(steps, s) && Apply(s, step).Some?
    ensures Reached(steps', s') && Apply(s, step) == Some(s') && steps' == steps + [step]
  {
    RunExtends(INIT, steps, step);
    steps', s' := steps + [step], Apply(s, step).value;
  }

  /** The calls a run makes, in order. */
  function Calls(steps: seq<Step>): seq<string> {
    if steps == [] then []
    else (if steps[0].Call? then [steps[0].cmd] else []) + Calls(steps[1..])
  }

  lemma {:induction false} CallsExtend(steps: seq<Step>, step: Step)
    ensures Calls(steps + [step]) == Calls(steps) + if step.Call? then [step.cmd] else []
    decreases |steps|
  {
    var last := if step.Call? then [step.cmd] else [];
    if steps == [] {
      assert [] + [step] == [step] && [step][1..] == [];
      assert last + [] == last == [] + last;
    } else {
      var rest := steps[1..];
      var first := if steps[0].Call? then [steps[0].cmd] else [];
      assert (steps + [step])[1..] == rest + [step];
      CallsExtend(rest, step);
      assert first + (Calls(rest) + last) == first + Calls(rest) + last;
    }
  }

  lemma Next(steps: seq<Step>, s: State, step: Step) returns (steps': seq<Step>, s': State)
    requires Reached(steps, s) && Apply(s, step).Some? && !step.Call?
    ensures Reached(steps', s') && Apply(s, step) == Some(s') && Calls(steps') == Calls(steps)
  {
    steps', s' := Extend(steps, s, step);
    CallsExtend(steps, step);
  }

  lemma ReadsWhole(r: Reply, rest: string)
    requires Encodable(r)
    ensures Decode(Encode(r) + rest) == Frame(r, |Encode(r)|)
    ensures (Encode(r) + rest)[|Encode(r)|..] == rest
  {
    DecodeEncode(r, rest);
  }

  /** The peer sends a reply it owes. */
  lemma Peer(steps: seq<Step>, s: State, reply: Reply) returns (steps': seq<Step>, s': State)
    requires Reached(steps, s) && s.conns != [] && Encodable(reply)
    requires |Current(s).replies| < |Current(s).due|
    ensures Reached(steps', s') && Calls(steps') == Calls(steps)
    ensures var c := Current(s);
            s' == s.(conns := SetLast(s.conns, c.(replies := c.replies + [reply], wire := c.wire + Encode(reply))))
  {
    steps', s' := Next(steps, s, PeerReply(reply));
  }

  lemma ReplyRead(s: State, reply: Reply, n: nat)
    requires s.conns != [] && s.handler.AwaitReply?
    requires Decode(Current(s).wire) == Frame(reply, n) && n <= |Current(s).wire|
    ensures Apply(s, ReadReply(n))
            == Some(s.(handler := Delivering(s.handler.id, reply),
                       conns := SetLast(s.conns, Current(s).(wire := Current(s).wire[n..]))))
  {
  }

  /** A read of a reply that pulls exactly the response at the front of the wire. */
  lemma ReadExactly(steps: seq<Step>, s: State, reply: Reply, rest: string)
    returns (steps': seq<Step>, s': State)
    requires Reached(steps, s) && s.conns != [] && s.handler.AwaitReply? && Encodable(reply)
    requires Current(s).wire == Encode(reply) + rest
    ensures Reached(steps', s') && Calls(steps') == Calls(steps)
    ensures s' == s.(handler := Delivering(s.handler.id, reply),
                     conns := SetLast(s.conns, Current(s).(wire := rest)))
  {
    ReadsWhole(reply, rest);
    ReplyRead(s, reply, |Encode(reply)|);
    steps', s' := Next(steps, s, ReadReply(|Encode(reply)|));
  }

  lemma WelcomeRead(s: State, reply: Reply, n: nat)
    requires s.conns != [] && s.handler.AwaitAuth? && reply.status == CLIS_OK
    requires Decode(Current(s).wire) == Frame(reply, n) && n <= |Current(s).wire|
    ensures Apply(s, ReadAuth(n))
            == Some(s.(handler := Idle, banner := Some(reply.body),
                       conns := SetLast(s.conns, Current(s).(wire := Current(s).wire[n..]))))
  {
  }

  lemma ReadWelcome(steps: seq<Step>, s: State, reply: Reply) returns (steps': seq<Step>, s': State)
    requires Reached(steps, s) && s.conns != [] && s.handler.AwaitAuth?
    requires Encodable(reply) && reply.status == CLIS_OK && Current(s).wire == Encode(reply)
    ensures Reached(steps', s') && Calls(steps') == Calls(steps)
    ensures s' == s.(handler := Idle, banner := Some(reply.body),
                     conns := SetLast(s.conns, Current(s).(wire := "")))
  {
    assert Encode(reply) + "" == Encode(reply);
    ReadsWhole(reply, "");
    WelcomeRead(s, reply, |Encode(reply)|);
    steps', s' := Next(steps, s, ReadAuth(|Encode(reply)|));
  }

  function Connecting(first: string, second: string, handler: Handler, c: Conn): State {
    State([Sending(first), Sending(second)], [], 0, handler, [c], [], None)
  }

  lemma CallsMade(first: string, second: string) returns (steps: seq<Step>, s: State)
    ensures Reached(steps, s) && Calls(steps) == [first, second]
    ensures s == Connecting(first, second, AwaitChallenge, Conn([], [0], [], ""))
  {
    assert Run(INIT, []) == Some(INIT);
    steps, s := Extend([], INIT, Call(first));
    CallsExtend([], Call(first));
    CallsExtend(steps, Call(second));
    steps, s := Extend(steps, s, Call(second));
    assert s.callers == [Sending(first), Sending(second)];
    steps, s := Next(steps, s, Accept);
  }

  lemma FirstMessage(replies: seq<Reply>)
    ensures Written(Conn([], [0], replies, ""), "auth " + "") == Conn(["auth "], [0, 1], replies, "")
  {
    AuthWritten(Conn([], [0], replies, ""), "");
    assert "auth " + "" == "auth ";
  }

  lemma GreetingRead(s: State, greeting: Reply, n: nat)
    requires s.handler.AwaitChallenge? && |s.conns| == 1 && greeting.status == CLIS_AUTH
    requires s.conns[0].replies == [greeting] && s.conns[0].sent == [] && s.conns[0].due == [0]
    requires Decode(s.conns[0].wire) == Frame(greeting, n) && n == |s.conns[0].wire|
    ensures Apply(s, ReadChallenge(n, ""))
            == Some(s.(handler := AwaitAuth, conns := [Conn(["auth "], [0, 1], [greeting], "")]))
  {
    FirstMessage([greeting]);
    var c := s.conns[0];
    assert Current(s) == c && CanRead(c, n) && OneLine("");
    assert c.wire[n..] == "";
    assert c.(wire := "") == Conn([], [0], [greeting], "");
    assert SetLast(s.conns, Conn(["auth "], [0, 1], [greeting], "")) == [Conn(["auth "], [0, 1], [greeting], "")];
  }

  lemma ReadGreeting(steps: seq<Step>, s: State, greeting: Reply) returns (steps': seq<Step>, s': State)
    requires Reached(steps, s) && s.handler.AwaitChallenge? && |s.conns| == 1
    requires Encodable(greeting) && greeting.status == CLIS_AUTH
    requires s.conns[0] == Conn([], [0], [greeting], Encode(greeting))
    ensures Reached(steps', s') && Calls(steps') == Calls(steps)
    ensures s' == s.(handler := AwaitAuth, conns := [Conn(["auth "], [0, 1], [greeting], "")])
  {
    assert Encode(greeting) + "" == Encode(greeting);
    ReadsWhole(greeting, "");
    GreetingRead(s, greeting, |Encode(greeting)|);
    steps', s' := Next(steps, s, ReadChallenge(|Encode(greeting)|, ""));
  }

  lemma ChallengeAnswered(first: string, second: string) returns (steps: seq<Step>, s: State)
    ensures Reached(steps, s) && Calls(steps) == [first, second]
    ensures s == Connecting(first, second, AwaitAuth, Conn(["auth "], [0, 1], [GREETING], ""))
  {
    steps, s := CallsMade(first, second);
    steps, s := Peer(steps, s, GREETING);
    assert "" + Encode(GREETING) == Encode(GREETING);
    assert s.conns[0].replies == [GREETING];
    steps, s := ReadGreeting(steps, s, GREETING);
  }

  function AfterHandshake(first: string, second: string): State {
    State([Sending(first), Sending(second)], [], 0, Idle,
          [Conn(["auth "], [0, 1], [GREETING, WELCOME], "")], [], Some(""))
  }

  /** Two calls are made and a connection comes up. */
  lemma HandshakeRun(first: string, second: string) returns (steps: seq<Step>, s: State)
    ensures Reached(steps, s) && s == AfterHandshake(first, second) && Calls(steps) == [first, second]
  {
    steps, s := ChallengeAnswered(first, second);
    steps, s := Peer(steps, s, WELCOME);
    assert "" + Encode(WELCOME) == Encode(WELCOME);
    steps, s := ReadWelcome(steps, s, WELCOME);
    assert s.conns[0].replies == [GREETING, WELCOME];
    assert s.conns == [s.conns[0]];
  }

  /** The next caller enqueues its command and the idle handler writes it. */
  lemma Submit(steps: seq<Step>, s: State, id: nat) returns (steps': seq<Step>, s': State)
    requires Reached(steps, s) && s.handler.Idle? && s.conns != [] && s.taken == |s.enqueued|
    requires id < |s.callers| && s.callers[id].Sending? && s.callers[id].cmd != ""
    ensures Reached(steps', s') && Calls(steps') == Calls(steps)
    ensures s' == s.(callers := s.callers[id := Waiting(s.callers[id].cmd)],
                     enqueued := s.enqueued + [id], taken := s.taken + 1, handler := AwaitReply(id),
                     conns := SetLast(s.conns, Written(Current(s), s.callers[id].cmd)),
                     writes := s.writes + [Write(s.taken, |s.conns| - 1, |Current(s).sent|)])
  {
    steps', s' := Next(steps, s, Enqueue(id));
    steps', s' := Next(steps', s', Take);
  }

  /** The blocked state is real: any one-line command, written before its caller times out and answered after,
      leaves the handler blocked with the other caller still unserved. */
  lemma TimeoutBlocks(cmd: string, other: string, reply: Reply) returns (steps: seq<Step>, s: State)
    requires cmd != "" && OneLine(cmd) && Encodable(reply)
    ensures Reached(steps, s) && Blocked(s) && Calls(steps) == [cmd, other]
    ensures s.callers == [TimedOut(cmd), Sending(other)]
  {
    steps, s := HandshakeRun(cmd, other);
    steps, s := Submit(steps, s, 0);
    steps, s := Next(steps, s, Expire(0));
    OneLineCount(cmd);
    assert |Current(s).due| == 3 && |Current(s).replies| == 2;
    steps, s := Peer(steps, s, reply);
    assert "" + Encode(reply) == Encode(reply) + "";
    steps, s := ReadExactly(steps, s, reply, "");
  }

  lemma {:induction false} SeveralLines(cmd: string)
    requires !OneLine(cmd)
    ensures LineCount(cmd) >= 2
  {
    if cmd[0] != '\n' {
      SeveralLines(cmd[1..]);
    } else {
      AtLeastOneLine(cmd[1..]);
    }
  }

  lemma {:induction false} AtLeastOneLine(cmd: string)
    ensures LineCount(cmd) >= 1
  {
    if cmd != [] {
      AtLeastOneLine(cmd[1..]);
    }
  }

  function FirstServed(bad: string, other: string, replies: seq<Reply>, wire: string): State {
    State([Waiting(bad), Sending(other)], [0], 1, AwaitReply(0),
          [Conn(["auth ", bad], [0, 1] + Repeat(2, LineCount(bad)), [GREETING, WELCOME] + replies, wire)],
          [Write(0, 0, 1)], Some(""))
  }

  lemma FirstWritten(bad: string, other: string) returns (steps: seq<Step>, s: State)
    requires bad != ""
    ensures Reached(steps, s) && Calls(steps) == [bad, other] && s == FirstServed(bad, other, [], "")
  {
    steps, s := HandshakeRun(bad, other);
    steps, s := Submit(steps, s, 0);
    assert s.conns[0].sent == ["auth ", bad];
    assert s.conns == [s.conns[0]];
    assert [GREETING, WELCOME] + [] == [GREETING, WELCOME];
  }

  lemma PeerAgain(steps: seq<Step>, s: State, bad: string, other: string, replies: seq<Reply>, wire: string, r: Reply)
    returns (steps': seq<Step>, s': State)
    requires Reached(steps, s) && s == FirstServed(bad, other, replies, wire)
    requires Encodable(r) && |replies| < LineCount(bad)
    ensures Reached(steps', s') && Calls(steps') == Calls(steps)
    ensures s' == FirstServed(bad, other, replies + [r], wire + Encode(r))
  {
    steps', s' := Peer(steps, s, r);
    assert s'.conns == [s'.conns[0]];
    assert [GREETING, WELCOME] + replies + [r] == [GREETING, WELCOME] + (replies + [r]);
  }

  function TwoReplies(bad: string, other: string, one: Reply, two: Reply, wire: string): State {
    FirstServed(bad, other, [one, two], wire)
  }

  /** The first caller's command of several lines is written and answered twice. */
  lemma AnsweredTwice(bad: string, other: string, one: Reply, two: Reply)
    returns (steps: seq<Step>, s: State)
    requires !OneLine(bad) && Encodable(one) && Encodable(two)
    ensures Reached(steps, s) && Calls(steps) == [bad, other]
    ensures s == TwoReplies(bad, other, one, two, Encode(one) + Encode(two))
  {
    SeveralLines(bad);
    steps, s := FirstWritten(bad, other);
    steps, s := PeerAgain(steps, s, bad, other, [], "", one);
    assert "" + Encode(one) == Encode(one);
    assert [] + [one] == [one];
    steps, s := PeerAgain(steps, s, bad, other, [one], Encode(one), two);
    assert [one] + [two] == [one, two];
  }

  function AfterFirst(bad: string, other: string, one: Reply, two: Reply): State
    requires Encodable(two)
  {
    TwoReplies(bad, other, one, two, Encode(two)).(callers := [Answered(bad, one), Sending(other)], handler := Idle)
  }

  /** The first of the two replies is delivered; the second stays on the wire. */
  lemma FirstOfTwoReplies(bad: string, other: string, one: Reply, two: Reply)
    returns (steps: seq<Step>, s: State)
    requires !OneLine(bad) && Encodable(one) && Encodable(two)
    ensures Reached(steps, s) && Calls(steps) == [bad, other]
    ensures s == AfterFirst(bad, other, one, two)
  {
    steps, s := AnsweredTwice(bad, other, one, two);
    steps, s := ReadExactly(steps, s, one, Encode(two));
    assert s.conns == TwoReplies(bad, other, one, two, Encode(two)).conns;
    steps, s := Next(steps, s, Deliver);
    assert s.callers == [Answered(bad, one), Sending(other)];
  }

  /** The restriction to single lines is exact: for every command holding a newline and any other command there
      is a run in which the other caller receives a reply that is not a reply to its own command. */
  lemma SeveralLinesCrossReplies(bad: string, other: string, one: Reply, two: Reply)
    returns (steps: seq<Step>, s: State)
    requires !OneLine(bad) && other != "" && Encodable(one) && Encodable(two)
    ensures Reached(steps, s) && Calls(steps) == [bad, other]
    ensures s.callers == [Answered(bad, one), Answered(other, two)] && !OwnReply(s, 1)
  {
    steps, s := FirstOfTwoReplies(bad, other, one, two);
    steps, s := Submit(steps, s, 1);
    assert Current(s).wire == Encode(two) + "";
    steps, s := ReadExactly(steps, s, two, "");
    steps, s := Next(steps, s, Deliver);
    SeveralLines(bad);
    var c := s.conns[0];
    assert c.due == [0, 1] + Repeat(2, LineCount(bad)) + Repeat(3, LineCount(other));
    NotOwed(s, LineCount(bad), LineCount(other));
  }

  lemma NotOwed(s: State, n: nat, m: nat)
    requires |s.callers| == 2 && s.callers[1].Answered? && s.enqueued == [0, 1]
    requires s.writes == [Write(0, 0, 1), Write(1, 0, 2)]
    requires |s.conns| == 1 && s.conns[0].due == [0, 1] + Repeat(2, n) + Repeat(3, m)
    requires n >= 2 && |s.conns[0].replies| == 4
    ensures !OwnReply(s, 1)
  {
    forall k, j | 0 <= k < |s.writes| && 0 <= j ensures !RepliesTo(s, 1, s.writes[k], j) {
      if RepliesTo(s, 1, s.writes[k], j) {
        assert false;
      }
    }
  }

  /** Besides single lines the callers give this one command. */
  predicate OnlyThisAndLines(steps: seq<Step>, cmd: string) {
    forall i :: 0 <= i < |steps| && steps[i].Call? ==> steps[i].cmd == cmd || OneLine(steps[i].cmd)
  }

  lemma {:induction false} CallsHolds(steps: seq<Step>, i: nat)
    requires i < |steps| && steps[i].Call?
    ensures steps[i].cmd in Calls(steps)
    decreases |steps|
  {
    if i > 0 {
      CallsHolds(steps[1..], i - 1);
    }
  }

  /** Which commands are safe to give beside single lines, under a peer that answers every line it receives:
      responses reach the callers they are meant for in every run if and only if the command is a single line. */
  lemma SafeExactlyWhenOneLine(cmd: string)
    ensures (forall steps, s, id ::
               Reached(steps, s) && OnlyThisAndLines(steps, cmd) && 0 <= id < |s.callers| && s.callers[id].Answered? ==>
                 OwnReply(s, id))
            <==> OneLine(cmd)
  {
    if OneLine(cmd) {
      forall steps, s, id |
        Reached(steps, s) && OnlyThisAndLines(steps, cmd) && 0 <= id < |s.callers| && s.callers[id].Answered?
        ensures OwnReply(s, id)
      {
        RepliesAreOwn(steps, s, id);
      }
    } else {
      var steps, s := SeveralLinesCrossReplies(cmd, "ping", Reply(CLIS_OK, ""), Reply(CLIS_OK, ""));
      forall i | 0 <= i < |steps| && steps[i].Call? ensures steps[i].cmd == cmd || OneLine(steps[i].cmd) {
        CallsHolds(steps, i);
      }
      assert s.callers[1].Answered? && !OwnReply(s, 1);
    }
  }
}
