/** What the mock answers, in status codes and words: which certificate commands succeed in the course of a run, what
    they do, and which answer takes precedence. */
module TlsAnswers {
  import opened Text
  import opened TlsMock
  import opened TlsRuns

  // ---------------------------------------------------------------- commands as words

  /** One word, blanks, and more after it. */
  predicate TwoParts(text: string, id: string, blanks: string, more: string) {
    text == id + blanks + more && Word(id) && blanks != "" && AllSpace(blanks) && more != "" && !IsSpace(more[0])
  }

  lemma FieldsOfTwoParts(pad: string, text: string, id: string, blanks: string, more: string)
    requires AllSpace(pad) && TwoParts(text, id, blanks, more)
    ensures Fields(pad + text) == [id] + Fields(more) && |Fields(more)| > 0
  {
    FieldsPadding(pad, text);
    FieldsWord(id, blanks + more);
    FieldsPadding(blanks, more);
    assert text == id + (blanks + more);
  }

  lemma FieldsOfOneWord(pad: string, id: string, tail: string)
    requires AllSpace(pad) && Word(id) && AllSpace(tail)
    ensures Fields(pad + (id + tail)) == [id]
  {
    FieldsPadding(pad, id + tail);
    FieldsWord(id, tail);
    assert tail + "" == tail;
    FieldsPadding(tail, "");
  }

  lemma FieldsOfCommand(word: string, rest: string)
    requires Word(word)
    ensures Fields(word + " " + rest) == [word] + Fields(rest)
  {
    assert word + " " + rest == word + (" " + rest);
    FieldsWord(word, " " + rest);
    FieldsPadding(" ", rest);
  }

  /** A certificate load: the command word, blanks, an id, blanks, a path and whatever follows it. */
  predicate LoadsCert(cmd: string, id: string) {
    "tls.cert.load " <= cmd && |Fields(cmd)| >= 3 && Fields(cmd)[1] == id
  }

  predicate DiscardsCert(cmd: string, id: string) {
    "tls.cert.discard " <= cmd && |Fields(cmd)| >= 2 && Fields(cmd)[1] == id
  }

  lemma LoadCommand(pad: string, id: string, blanks: string, path: string)
    requires AllSpace(pad) && Word(id) && blanks != "" && AllSpace(blanks) && path != "" && !IsSpace(path[0])
    ensures LoadsCert("tls.cert.load " + (pad + (id + blanks + path)), id)
  {
    var word, rest := "tls.cert.load", pad + (id + blanks + path);
    assert "tls.cert.load " == word + " ";
    FieldsOfTwoParts(pad, id + blanks + path, id, blanks, path);
    FieldsOfCommand(word, rest);
    assert Fields(word + " " + rest) == [word] + ([id] + Fields(path));
  }

  lemma DiscardCommand(pad: string, id: string, tail: string)
    requires AllSpace(pad) && Word(id) && AllSpace(tail)
    ensures DiscardsCert("tls.cert.discard " + (pad + (id + tail)), id)
  {
    var word, rest := "tls.cert.discard", pad + (id + tail);
    assert "tls.cert.discard " == word + " ";
    FieldsOfOneWord(pad, id, tail);
    FieldsOfCommand(word, rest);
  }

  // ---------------------------------------------------------------- which commands succeed

  /** A test has set an error for the command. */
  predicate Failing(st: TlsState, cmd: string) {
    cmd in st.responses && st.responses[cmd].status != 200
  }

  /** The certificates a client expects to be in force at the next commit: the committed ones with the successful
      loads and discards of the open transaction. */
  function Expected(st: TlsState, events: seq<Event>): Certs {
    Replay(Run(st, events).committed, SeenSince(st, [], events))
  }

  /** Nothing is committed yet, and the next commit that no test fails makes the certificates current. */
  predicate Pends(before: TlsState, after: TlsState, certs: Certs, now: Moment) {
    && after.committed == before.committed && after.responses == before.responses && after.open
    && (!Failing(after, "tls.cert.commit") ==>
          && Answer(after, "tls.cert.commit", now).response.status == 200
          && Answer(after, "tls.cert.commit", now).state.committed == certs
          && !Answer(after, "tls.cert.commit", now).state.open)
  }

  lemma OpenPends(before: TlsState, after: TlsState, certs: Certs, now: Moment)
    requires after.committed == before.committed && after.responses == before.responses
    requires after.open && after.staged == certs
    ensures Pends(before, after, certs, now)
  {
    CommandsDiffer(COMMIT);
  }

  /** In every run from a state with no open transaction, whatever was committed, rolled back or reset on the way: a
      load that no test fails is answered 200 if and only if the certificate is not there, and 300 otherwise, and
      the next commit has the certificate, or is what it was. */
  lemma LoadSucceedsExactlyWhen(
    st: TlsState, events: seq<Event>, cmd: string, id: string, now: Moment, later: Moment)
    requires !st.open && LoadsCert(cmd, id) && !Failing(Run(st, events), cmd)
    ensures var before, certs := Run(st, events), Expected(st, events);
            var answer := Answer(before, cmd, now);
            if id !in certs then
              && answer.response == Response(200, "Certificate " + id + " loaded")
              && Pends(before, answer.state,
                       certs[id := Cert("main", "active", id, id, now.expiration, false)], later)
            else
              && answer.response == Response(300, "Id: \"" + id + "\" already exists")
              && Pends(before, answer.state, certs, later)
  {
    var before := Run(st, events);
    RunExplained(st, [], events);
    CommandsDiffer(cmd);
    StagedIsExpected(st, events);
    var answer := Answer(before, cmd, now);
    OpenPends(before, answer.state, answer.state.staged, later);
  }

  lemma DiscardSucceedsExactlyWhen(
    st: TlsState, events: seq<Event>, cmd: string, id: string, now: Moment, later: Moment)
    requires !st.open && DiscardsCert(cmd, id) && !Failing(Run(st, events), cmd)
    ensures var before, certs := Run(st, events), Expected(st, events);
            var answer := Answer(before, cmd, now);
            if id in certs then
              && answer.response == Response(200, "Certificate " + id + " discarded")
              && Pends(before, answer.state, certs - {id}, later)
            else
              && answer.response == Response(300, "Certificate \"" + id + "\" not found")
              && Pends(before, answer.state, certs, later)
  {
    var before := Run(st, events);
    RunExplained(st, [], events);
    CommandsDiffer(cmd);
    StagedIsExpected(st, events);
    var answer := Answer(before, cmd, now);
    OpenPends(before, answer.state, answer.state.staged, later);
  }

  lemma StagedIsExpected(st: TlsState, events: seq<Event>)
    requires !st.open
    ensures Begin(Run(st, events)).staged == Expected(st, events)
  {
    RunExplained(st, [], events);
  }

  /** Too few words: 101, and no transaction is opened. */
  lemma UsageErrors(st: TlsState, cmd: string, now: Moment)
    requires !Failing(st, cmd)
    requires ("tls.cert.load " <= cmd && |Fields(cmd)| < 3) || ("tls.cert.discard " <= cmd && |Fields(cmd)| < 2)
    ensures Answer(st, cmd, now).response.status == 101 && Answer(st, cmd, now).state == st
  {
    CommandsDiffer(cmd);
  }

  // ---------------------------------------------------------------- which answer takes precedence

  predicate CertCommand(cmd: string) {
    || "tls.cert.load " <= cmd || "tls.cert.discard " <= cmd
    || cmd in {"tls.cert.commit", "tls.cert.rollback", "tls.cert.list"}
  }

  /** An error that a test has set answers any command and changes nothing; a success that a test has set answers all
      but the certificate commands, whose answers are what they are without it. */
  lemma SetResponsesAnswer(st: TlsState, cmd: string, now: Moment, response: Response)
    requires cmd in st.responses && st.responses[cmd] == response
    ensures response.status != 200 || !CertCommand(cmd) ==> Answer(st, cmd, now) == Outcome(st, response)
    ensures response.status == 200 && CertCommand(cmd) ==>
              var plain := Answer(st.(responses := map[]), cmd, now);
              && Answer(st, cmd, now).response == plain.response
              && Answer(st, cmd, now).state == plain.state.(responses := st.responses)
  {
    CommandsDiffer(cmd);
  }

  /** Without a response of its own a command that is none of the known ones is refused with 101. */
  lemma UnknownIsRefused(st: TlsState, cmd: string, now: Moment)
    requires cmd !in st.responses && !CertCommand(cmd)
    ensures Answer(st, cmd, now).state == st
    ensures Answer(st, cmd, now).response.status == if "vcl.load" <= cmd || "vcl.use" <= cmd then 200 else 101
    ensures "vcl.load" <= cmd ==> Answer(st, cmd, now).response.payload == "VCL compiled"
    ensures forall name :: cmd == "vcl.use " + name ==>
                             Answer(st, cmd, now).response.payload == "VCL '" + name + "' now active"
  {
    var use := "vcl.use ";
    forall name | cmd == use + name ensures Answer(st, cmd, now).response.payload == "VCL '" + name + "' now active" {
      assert cmd[..8] == use && cmd[8..] == name && cmd[4] == 'u' && cmd[..7] == "vcl.use";
    }
  }

  /** Commit and rollback always succeed, the list shows the committed certificates alone. */
  lemma AlwaysAnswered(st: TlsState, cmd: string, now: Moment)
    requires cmd in {"tls.cert.commit", "tls.cert.rollback", "tls.cert.list"} && !Failing(st, cmd)
    ensures Answer(st, cmd, now).response.status == 200
    ensures cmd == "tls.cert.rollback" ==>
              && Answer(st, cmd, now).state.committed == st.committed && !Answer(st, cmd, now).state.open
              && Answer(st, cmd, now).response.payload
                 == if st.open then "TLS certificate changes rolled back" else "No changes to rollback"
    ensures cmd == "tls.cert.list" ==>
              && Answer(st, cmd, now).state == st
              && Answer(st, cmd, now).response.payload == Listing(InOrder(st.committed, now.order))
  {
    CommandsDiffer(cmd);
  }

  // ---------------------------------------------------------------- a state set by a test

  /** Of several certificates with one id the last is kept. */
  lemma {:induction false} StateSetKeepsLast(certs: seq<Cert>, i: nat)
    requires i < |certs| && forall j :: i < j < |certs| ==> certs[j].id != certs[i].id
    ensures certs[i].id in ById(certs) && ById(certs)[certs[i].id] == certs[i]
    ensures forall id :: id in ById(certs) <==> exists j :: 0 <= j < |certs| && certs[j].id == id
    decreases |certs|
  {
    IdsKept(certs);
    var init := certs[..|certs| - 1];
    if i < |init| {
      StateSetKeepsLast(init, i);
    }
  }

  lemma {:induction false} IdsKept(certs: seq<Cert>)
    ensures forall id :: id in ById(certs) <==> exists j :: 0 <= j < |certs| && certs[j].id == id
    decreases |certs|
  {
    if certs != [] {
      var init := certs[..|certs| - 1];
      IdsKept(init);
      forall id | exists j :: 0 <= j < |certs| && certs[j].id == id ensures id in ById(certs) {
        var j :| 0 <= j < |certs| && certs[j].id == id;
        if j < |init| {
          assert init[j].id == id;
        }
      }
    }
  }
}
