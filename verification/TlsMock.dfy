/** The TLS certificate transactions of the mock server (`pkg/varnishadm/mock.go`): loads and discards are staged,
    commit makes them current, rollback forgets them. */
module TlsMock {
  import opened Text

  const CLIS_UNKNOWN := 101
  const CLIS_OK := 200
  const CLIS_EXISTS := 300

  const LOAD := "tls.cert.load "
  const DISCARD := "tls.cert.discard "
  const COMMIT := "tls.cert.commit"
  const ROLLBACK := "tls.cert.rollback"
  const LIST := "tls.cert.list"

  /** The expiration is the text the listing shows for it. */
  datatype Cert = Cert(
    frontend: string,
    state: string,
    hostname: string,
    id: string,
    expiration: string,
    ocspStapling: bool)

  type Certs = map<string, Cert>

  datatype Response = Response(status: int, payload: string)

  datatype TlsState = TlsState(committed: Certs, staged: Certs, open: bool, responses: map<string, Response>)

  /** What the clock says, as the expiration of a certificate loaded now, and the order in which the certificate
      map happens to be walked. */
  datatype Moment = Moment(expiration: string, order: seq<string>)

  datatype Outcome = Outcome(state: TlsState, response: Response)

  // ---------------------------------------------------------------- the handlers as functions

  function Begin(st: TlsState): TlsState {
    if st.open then st else st.(staged := st.committed, open := true)
  }

  function Loaded(id: string, now: Moment): Cert {
    Cert("main", "active", id, id, now.expiration, false)
  }

  function Load(st: TlsState, cmd: string, now: Moment): Outcome {
    var parts := Fields(cmd);
    if |parts| < 3 then Outcome(st, Response(CLIS_UNKNOWN, "Usage: tls.cert.load <id> <path>"))
    else
      var id, begun := parts[1], Begin(st);
      if id in begun.staged then Outcome(begun, Response(CLIS_EXISTS, "Id: \"" + id + "\" already exists"))
      else
        Outcome(begun.(staged := begun.staged[id := Loaded(id, now)]),
                Response(CLIS_OK, "Certificate " + id + " loaded"))
  }

  function Discard(st: TlsState, cmd: string): Outcome {
    var parts := Fields(cmd);
    if |parts| < 2 then Outcome(st, Response(CLIS_UNKNOWN, "Usage: tls.cert.discard <id>"))
    else
      var id, begun := parts[1], Begin(st);
      if id !in begun.staged then Outcome(begun, Response(CLIS_EXISTS, "Certificate \"" + id + "\" not found"))
      else
        Outcome(begun.(staged := begun.staged - {id}), Response(CLIS_OK, "Certificate " + id + " discarded"))
  }

  function Commit(st: TlsState): Outcome {
    if !st.open then Outcome(st, Response(CLIS_OK, "No changes to commit"))
    else
      Outcome(st.(committed := st.staged, staged := map[], open := false),
              Response(CLIS_OK, "TLS certificates committed"))
  }

  function Rollback(st: TlsState): Outcome {
    if !st.open then Outcome(st, Response(CLIS_OK, "No changes to rollback"))
    else Outcome(st.(staged := map[], open := false), Response(CLIS_OK, "TLS certificate changes rolled back"))
  }

  /** The column titles, padded like the columns. */
  const HEADING :=
    "Frontend" + " " + PadRight("State", 7) + " " + PadRight("Hostname", 16) + " "
    + PadRight("Certificate ID", 15) + " " + PadRight("Expiration date", 25) + " " + "OCSP stapling"

  function ShownFrontend(c: Cert): string {
    if c.frontend == "" then "default" else c.frontend
  }

  function ListLine(c: Cert): string {
    PadRight(ShownFrontend(c), 8) + " " + PadRight(c.state, 7) + " " + PadRight(c.hostname, 16) + " "
    + PadRight(c.id, 15) + " " + PadRight(c.expiration, 25) + " " + (if c.ocspStapling then "true" else "false")
  }

  /** One line for each certificate, for any way of showing one. */
  function LinesWith(show: Cert -> string, certs: seq<Cert>): seq<string> {
    if certs == [] then [] else [show(certs[0])] + LinesWith(show, certs[1..])
  }

  lemma {:induction false} LinesNext(show: Cert -> string, certs: seq<Cert>, n: nat)
    requires n < |certs|
    ensures LinesWith(show, certs[..n + 1]) == LinesWith(show, certs[..n]) + [show(certs[n])]
    decreases n
  {
    if n > 0 {
      LinesNext(show, certs[1..], n - 1);
      assert certs[..n + 1][1..] == certs[1..][..n] && certs[..n][1..] == certs[1..][..n - 1];
    }
  }

  lemma {:induction false} LinesAt(show: Cert -> string, certs: seq<Cert>)
    ensures |LinesWith(show, certs)| == |certs|
    ensures forall i :: 0 <= i < |certs| ==> LinesWith(show, certs)[i] == show(certs[i])
    decreases |certs|
  {
    if certs != [] {
      LinesAt(show, certs[1..]);
    }
  }

  function Listing(certs: seq<Cert>): string {
    Join([HEADING] + LinesWith(ListLine, certs), "\n")
  }

  /** The certificates of the map in the order given. */
  function InOrder(certs: Certs, order: seq<string>): seq<Cert> {
    if order == [] then []
    else (if order[0] in certs then [certs[order[0]]] else []) + InOrder(certs, order[1..])
  }

  function List(st: TlsState, now: Moment): Response {
    Response(CLIS_OK, Listing(InOrder(st.committed, now.order)))
  }

  /** An error response set by a test comes first, then the certificate commands, then other set responses, then
      the defaults. */
  function Answer(st: TlsState, cmd: string, now: Moment): Outcome {
    if cmd in st.responses && st.responses[cmd].status != CLIS_OK then Outcome(st, st.responses[cmd])
    else if LOAD <= cmd then Load(st, cmd, now)
    else if DISCARD <= cmd then Discard(st, cmd)
    else if cmd == COMMIT then Commit(st)
    else if cmd == ROLLBACK then Rollback(st)
    else if cmd == LIST then Outcome(st, List(st, now))
    else if cmd in st.responses then Outcome(st, st.responses[cmd])
    else if "vcl.load" <= cmd then Outcome(st, Response(CLIS_OK, "VCL compiled"))
    else if "vcl.use" <= cmd then
      Outcome(st, Response(CLIS_OK, "VCL '" + (if "vcl.use " <= cmd then cmd[8..] else cmd) + "' now active"))
    else Outcome(st, Response(CLIS_UNKNOWN, "Unknown request: " + cmd))
  }

  function ById(certs: seq<Cert>): Certs {
    if certs == [] then map[]
    else ById(certs[..|certs| - 1])[certs[|certs| - 1].id := certs[|certs| - 1]]
  }

  // ---------------------------------------------------------------- the mock

  class Mock {
    var responses: map<string, Response>
    var callHistory: seq<string>
    var tlsCertsCommitted: Certs
    var tlsCertsStaged: Certs
    var tlsTransaction: bool

    constructor (responses: map<string, Response>)
      ensures State() == TlsState(map[], map[], false, responses) && callHistory == []
    {
      this.responses, callHistory := responses, [];
      tlsCertsCommitted, tlsCertsStaged, tlsTransaction := map[], map[], false;
    }

    ghost function State(): TlsState
      reads this
    {
      TlsState(tlsCertsCommitted, tlsCertsStaged, tlsTransaction, responses)
    }

    method Exec(cmd: string, now: Moment) returns (response: Response)
      modifies this
      ensures Outcome(State(), response) == Answer(old(State()), cmd, now)
      ensures callHistory == old(callHistory) + [cmd]
    {
      callHistory := callHistory + [cmd];
      if cmd in responses && responses[cmd].status != CLIS_OK {
        response := responses[cmd];
      } else if LOAD <= cmd {
        response := HandleLoad(cmd, now);
      } else if DISCARD <= cmd {
        response := HandleDiscard(cmd);
      } else if cmd == COMMIT {
        response := HandleCommit();
      } else if cmd == ROLLBACK {
        response := HandleRollback();
      } else if cmd == LIST {
        response := HandleList(now);
      } else if cmd in responses {
        response := responses[cmd];
      } else if "vcl.load" <= cmd {
        response := Response(CLIS_OK, "VCL compiled");
      } else if "vcl.use" <= cmd {
        var name := if "vcl.use " <= cmd then cmd[8..] else cmd;
        response := Response(CLIS_OK, "VCL '" + name + "' now active");
      } else {
        response := Response(CLIS_UNKNOWN, "Unknown request: " + cmd);
      }
    }

    /** A certificate command outside a transaction opens one on a copy of the committed certificates. */
    method BeginTransaction()
      modifies this`tlsCertsStaged, this`tlsTransaction
      ensures State() == Begin(old(State()))
    {
      if !tlsTransaction {
        tlsCertsStaged := tlsCertsCommitted;
        tlsTransaction := true;
      }
    }

    method HandleLoad(cmd: string, now: Moment) returns (response: Response)
      modifies this`tlsCertsStaged, this`tlsTransaction
      ensures Outcome(State(), response) == Load(old(State()), cmd, now)
    {
      var parts := Fields(cmd);
      if |parts| < 3 {
        return Response(CLIS_UNKNOWN, "Usage: tls.cert.load <id> <path>");
      }
      var certID := parts[1];
      BeginTransaction();
      if certID in tlsCertsStaged {
        return Response(CLIS_EXISTS, "Id: \"" + certID + "\" already exists");
      }
      tlsCertsStaged := tlsCertsStaged[certID := Loaded(certID, now)];
      return Response(CLIS_OK, "Certificate " + certID + " loaded");
    }

    method HandleDiscard(cmd: string) returns (response: Response)
      modifies this`tlsCertsStaged, this`tlsTransaction
      ensures Outcome(State(), response) == Discard(old(State()), cmd)
    {
      var parts := Fields(cmd);
      if |parts| < 2 {
        return Response(CLIS_UNKNOWN, "Usage: tls.cert.discard <id>");
      }
      var certID := parts[1];
      BeginTransaction();
      if certID !in tlsCertsStaged {
        return Response(CLIS_EXISTS, "Certificate \"" + certID + "\" not found");
      }
      tlsCertsStaged := tlsCertsStaged - {certID};
      return Response(CLIS_OK, "Certificate " + certID + " discarded");
    }

    method HandleCommit() returns (response: Response)
      modifies this`tlsCertsCommitted, this`tlsCertsStaged, this`tlsTransaction
      ensures Outcome(State(), response) == Commit(old(State()))
    {
      if !tlsTransaction {
        return Response(CLIS_OK, "No changes to commit");
      }
      tlsCertsCommitted, tlsCertsStaged, tlsTransaction := tlsCertsStaged, map[], false;
      return Response(CLIS_OK, "TLS certificates committed");
    }

    method HandleRollback() returns (response: Response)
      modifies this`tlsCertsStaged, this`tlsTransaction
      ensures Outcome(State(), response) == Rollback(old(State()))
    {
      if !tlsTransaction {
        return Response(CLIS_OK, "No changes to rollback");
      }
      tlsCertsStaged, tlsTransaction := map[], false;
      return Response(CLIS_OK, "TLS certificate changes rolled back");
    }

    method HandleList(now: Moment) returns (response: Response)
      ensures response == List(State(), now)
    {
      var lines := ListedLines(ListLine, now.order);
      return Response(CLIS_OK, Join([HEADING] + lines, "\n"));
    }

    /** One line for each committed certificate, in the order the map is walked. */
    method ListedLines(show: Cert -> string, order: seq<string>) returns (lines: seq<string>)
      ensures lines == LinesWith(show, InOrder(tlsCertsCommitted, order))
    {
      lines := [];
      ghost var certs := InOrder(tlsCertsCommitted, order);
      ghost var shown := 0;
      for i := 0 to |order|
        invariant shown <= |certs| && certs[shown..] == InOrder(tlsCertsCommitted, order[i..])
        invariant lines == LinesWith(show, certs[..shown])
      {
        assert order[i..][1..] == order[i + 1..];
        if order[i] in tlsCertsCommitted {
          assert certs[shown] == certs[shown..][0] && certs[shown + 1..] == certs[shown..][1..];
          LinesNext(show, certs, shown);
          lines := lines + [show(tlsCertsCommitted[order[i]])];
          shown := shown + 1;
        }
      }
      assert order[|order|..] == [] && certs[..shown] == certs;
    }

    method SetTLSState(certs: seq<Cert>)
      modifies this`tlsCertsCommitted, this`tlsCertsStaged, this`tlsTransaction
      ensures State() == TlsState(ById(certs), map[], false, old(responses))
    {
      tlsCertsCommitted := map[];
      for i := 0 to |certs|
        invariant tlsCertsCommitted == ById(certs[..i])
        invariant responses == old(responses)
      {
        assert certs[..i + 1][..i] == certs[..i];
        tlsCertsCommitted := tlsCertsCommitted[certs[i].id := certs[i]];
      }
      assert certs[..|certs|] == certs;
      tlsCertsStaged, tlsTransaction := map[], false;
    }

    method SetResponse(cmd: string, response: Response)
      modifies this`responses
      ensures State() == old(State()).(responses := old(responses)[cmd := response])
    {
      responses := responses[cmd := response];
    }
  }
}
