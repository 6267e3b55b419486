/** Coverage soundness: an executor for structured subs that emits VCL_trace positions by the documented rules, and
    the proof that marking the extracted blocks with the emitted lines only ever marks blocks that the execution
    really entered. */
module TraceRuns {
  import opened Common
  import opened Blocks
  import opened Analyzer
  import opened BlockHeap

  /** One way through a statement.  A list of choices shorter than the statement list it runs through is an
      execution that left the block early: by `return`, or because a statement failed.  It may be empty: the first
      statement of a block may fail as well. */
  datatype Choice =
    | Plain
    | InBlock(choices: seq<Choice>)
    | TakeThen(body: Choice, markAfter: bool)
    | TakeElse(body: Choice)
    | TakeNone

  predicate Follows(s: Stmt, c: Choice)
    decreases s, 1
  {
    match s
    case Simple(_, _) => c.Plain?
    case BlockStmt(_, _, statements) => c.InBlock? && FollowsAll(statements, c.choices)
    case IfStmt(_, _, _, thenPart, elsePart) =>
      match c
      case TakeThen(body, _) => Follows(thenPart, body)
      case TakeElse(body) => elsePart.Some? && Follows(elsePart.value, body)
      case TakeNone => elsePart.None?
      case _ => false
  }

  predicate FollowsAll(statements: seq<Stmt>, choices: seq<Choice>)
    decreases statements, 0
  {
    choices == [] ||
    (statements != [] && Follows(statements[0], choices[0]) && FollowsAll(statements[1..], choices[1..]))
  }

  // ---------------------------------------------------------------- what is traced

  /** The line of the first token inside a block: its first statement, or the closing brace of an empty one. */
  function FirstToken(statements: seq<Stmt>, end: int): int {
    if statements == [] then end else statements[0].start
  }

  /** Lines traced while executing s, where `next` is the line of the token after s.  Entering a braced block
      traces its first token; a chain with no final else traces the token after it when no branch is taken.
      Whether it also does so after a taken branch is left open: `markAfter` allows both. */
  function Traces(s: Stmt, c: Choice, next: int): set<int>
    requires Follows(s, c)
    decreases s, 1
  {
    match s
    case Simple(_, _) => {}
    case BlockStmt(_, end, statements) => {FirstToken(statements, end)} + TracesAll(statements, c.choices, end)
    case IfStmt(_, _, _, thenPart, elsePart) =>
      match c
      case TakeThen(body, markAfter) =>
        Traces(thenPart, body, if elsePart.Some? then elsePart.value.start else next)
        + if markAfter && !EndsInElse(s) then {next} else {}
      case TakeElse(body) => Traces(elsePart.value, body, next)
      case TakeNone => {next}
  }

  function TracesAll(statements: seq<Stmt>, choices: seq<Choice>, end: int): set<int>
    requires FollowsAll(statements, choices)
    decreases statements, 0
  {
    if choices == [] then {}
    else
      Traces(statements[0], choices[0], FirstToken(statements[1..], end))
      + TracesAll(statements[1..], choices[1..], end)
  }

  // ---------------------------------------------------------------- what is really entered

  /** Whether the execution entered the block at path p of the blocks extracted from the statements. */
  predicate Entered(statements: seq<Stmt>, choices: seq<Choice>, p: Path)
    requires FollowsAll(statements, choices)
    decreases statements, 0
  {
    if choices == [] || p == [] then false
    else
      var n := |ExtractStmt(statements[0])|;
      if p[0] < n then ChainEntered(statements[0], choices[0], p)
      else Entered(statements[1..], choices[1..], [p[0] - n] + p[1..])
  }

  predicate ChainEntered(s: Stmt, c: Choice, p: Path)
    requires s.IfStmt? && Follows(s, c) && p != []
    decreases s, 2
  {
    match c
    case TakeThen(body, _) => p[0] == 0 && BodyEntered(s.thenPart, body, p[1..])
    case TakeElse(body) => p[0] > 0 && ElseEntered(s.elsePart.value, body, [p[0] - 1] + p[1..])
    case TakeNone => false
  }

  predicate ElseEntered(s: Stmt, c: Choice, p: Path)
    requires Follows(s, c) && p != []
    decreases s, 3
  {
    if s.IfStmt? then ChainEntered(s, c, p) else p[0] == 0 && BodyEntered(s, c, p[1..])
  }

  predicate BodyEntered(s: Stmt, c: Choice, p: Path)
    requires Follows(s, c)
    decreases s, 1
  {
    p == [] || (s.BlockStmt? && Entered(s.statements, c.choices, p))
  }

  // ---------------------------------------------------------------- executions of a file

  /** One invocation of a sub: by Varnish or by a `call` statement. */
  datatype Invocation = Invocation(sub: nat, choices: seq<Choice>)

  predicate FollowsFile(subs: seq<SubDecl>, run: seq<Invocation>) {
    forall k :: 0 <= k < |run| ==>
                  && run[k].sub < |subs|
                  && subs[run[k].sub].body.Body?
                  && FollowsAll(subs[run[k].sub].body.statements, run[k].choices)
  }

  function SubTraces(sub: SubDecl, choices: seq<Choice>): set<int>
    requires sub.body.Body? && FollowsAll(sub.body.statements, choices)
  {
    {FirstToken(sub.body.statements, sub.body.end)} + TracesAll(sub.body.statements, choices, sub.body.end)
  }

  function FileTraces(subs: seq<SubDecl>, run: seq<Invocation>): set<int>
    requires FollowsFile(subs, run)
  {
    set k, line | 0 <= k < |run| && line in SubTraces(subs[run[k].sub], run[k].choices) :: line
  }

  predicate FileEntered(subs: seq<SubDecl>, run: seq<Invocation>, p: Path)
    requires FollowsFile(subs, run)
  {
    && p != []
    && exists k :: 0 <= k < |run| && SubEntered(subs, run[k], p)
  }

  predicate SubEntered(subs: seq<SubDecl>, call: Invocation, p: Path)
    requires call.sub < |subs| && subs[call.sub].body.Body?
    requires FollowsAll(subs[call.sub].body.statements, call.choices)
    requires p != []
  {
    call.sub == p[0] && (p[1..] == [] || Entered(subs[call.sub].body.statements, call.choices, p[1..]))
  }

  // ---------------------------------------------------------------- traces stay where they are emitted

  lemma {:induction false} TraceRange(s: Stmt, c: Choice, next: int, lo: int, hi: int, line: int)
    requires Laid(s, lo, hi) && Follows(s, c) && s.end <= next
    requires line in Traces(s, c, next)
    ensures s.start <= line <= next
    decreases s, 1
  {
    match s
    case Simple(_, _) =>
    case BlockStmt(_, _, statements) =>
      FirstTokenRange(statements, s.start, s.end);
      if line in TracesAll(statements, c.choices, s.end) {
        TraceRangeAll(statements, c.choices, s.start, s.end, line);
      }
    case IfStmt(_, _, _, thenPart, elsePart) =>
      match c
      case TakeThen(body, _) =>
        var after := if elsePart.Some? then elsePart.value.start else next;
        if line in Traces(thenPart, body, after) {
          TraceRange(thenPart, body, after, s.start, s.end, line);
        }
      case TakeElse(body) =>
        TraceRange(elsePart.value, body, next, thenPart.end, s.end, line);
      case TakeNone =>
  }

  lemma FirstTokenRange(statements: seq<Stmt>, lo: int, hi: int)
    requires LaidInOrder(statements, lo, hi)
    ensures lo <= FirstToken(statements, hi) <= hi
  {
  }

  lemma {:induction false} TraceRangeAll(statements: seq<Stmt>, choices: seq<Choice>, lo: int, hi: int, line: int)
    requires LaidInOrder(statements, lo, hi) && FollowsAll(statements, choices)
    requires line in TracesAll(statements, choices, hi)
    ensures lo <= line <= hi
    decreases statements, 0
  {
    var s, rest := statements[0], statements[1..];
    FirstTokenRange(rest, s.end, hi);
    if line in Traces(s, choices[0], FirstToken(rest, hi)) {
      TraceRange(s, choices[0], FirstToken(rest, hi), lo, hi, line);
    } else {
      TraceRangeAll(rest, choices[1..], s.end, hi, line);
    }
  }

  /** A chain with a final else traces nothing after itself, one without traces the token after it when no branch is
      taken. */
  lemma {:induction false} ElseTracesNothingAfter(s: Stmt, c: Choice, next: int, lo: int, hi: int, line: int)
    requires s.IfStmt? && EndsInElse(s) && Laid(s, lo, hi) && Follows(s, c) && line in Traces(s, c, next)
    ensures line <= s.end
    decreases s
  {
    var e := s.elsePart.value;
    match c
    case TakeThen(body, _) =>
      TraceRange(s.thenPart, body, e.start, s.start, s.end, line);
    case TakeElse(body) =>
      if e.IfStmt? {
        ElseTracesNothingAfter(e, body, next, s.thenPart.end, s.end, line);
      } else {
        TraceRange(e, body, s.end, s.thenPart.end, s.end, line);
      }
    case TakeNone =>
  }

  lemma NoElseTracesNext(s: Stmt, next: int)
    requires s.IfStmt? && s.elsePart.None?
    ensures Follows(s, TakeNone) && Traces(s, TakeNone, next) == {next}
  {
  }

  // ---------------------------------------------------------------- a line strictly inside a block was traced there

  lemma FitsAt(bs: seq<Block>, lo: int, hi: int, p: Path)
    requires Fits(bs, lo, hi) && InForest(bs, p)
    ensures lo <= ForestAt(bs, p).openBrace && ForestAt(bs, p).closeBrace <= hi
  {
    NestedAt(bs[p[0]], p[1..]);
  }

  lemma {:induction false} InsideMeansEntered(
    statements: seq<Stmt>, choices: seq<Choice>, lo: int, hi: int, line: int, p: Path)
    requires LaidInOrder(statements, lo, hi) && FollowsAll(statements, choices)
    requires line in TracesAll(statements, choices, hi)
    requires InForest(ExtractNested(statements), p)
    requires BetweenBraces(ForestAt(ExtractNested(statements), p), line)
    ensures Entered(statements, choices, p)
    decreases statements, 0
  {
    var s, rest := statements[0], statements[1..];
    var here, there := ExtractStmt(s), ExtractNested(rest);
    var next := FirstToken(rest, hi);
    ShiftPath(here, there, p);
    FirstTokenRange(rest, s.end, hi);
    if p[0] < |here| {
      StmtFits(s, lo, hi);
      FitsAt(here, lo, s.end, p);
      if line in TracesAll(rest, choices[1..], hi) {
        TraceRangeAll(rest, choices[1..], s.end, hi, line);
        assert false;
      }
      InsideChain(s, choices[0], If, next, lo, hi, line, p);
    } else {
      var q := [p[0] - |here|] + p[1..];
      AfterFirstToken(rest, s.end, hi, q);
      if line in Traces(s, choices[0], next) {
        TraceRange(s, choices[0], next, lo, hi, line);
        assert false;
      }
      InsideMeansEntered(rest, choices[1..], s.end, hi, line, q);
    }
  }

  /** No block opens before the first token of the list it is extracted from. */
  lemma {:induction false} AfterFirstToken(statements: seq<Stmt>, lo: int, hi: int, p: Path)
    requires LaidInOrder(statements, lo, hi)
    requires InForest(ExtractNested(statements), p)
    ensures FirstToken(statements, hi) <= ForestAt(ExtractNested(statements), p).openBrace
  {
    var s := statements[0];
    assert LaidInOrder(statements, s.start, hi);
    NestedFits(statements, s.start, hi);
    FitsAt(ExtractNested(statements), s.start, hi, p);
  }

  lemma {:induction false} InsideChain(
    s: Stmt, c: Choice, kind: Kind, next: int, lo: int, hi: int, line: int, p: Path)
    requires s.IfStmt? && Laid(s, lo, hi) && Follows(s, c) && s.end <= next
    requires line in Traces(s, c, next)
    requires InForest(ExtractChain(s, kind), p)
    requires BetweenBraces(ForestAt(ExtractChain(s, kind), p), line)
    ensures ChainEntered(s, c, p)
    decreases s, 2
  {
    var first := [ExtractIf(s, kind)];
    var others := if s.elsePart.Some? then ExtractElse(s.elsePart.value) else [];
    ShiftPath(first, others, p);
    ChainFits(s, kind, lo, hi);
    FitsAt(ExtractChain(s, kind), lo, s.end, p);
    var q := if p[0] > 0 then [p[0] - 1] + p[1..] else p;
    if p[0] == 0 {
      BodyFits(s.thenPart, s.start, s.end);
      NestedAt(first[0], p[1..]);
    } else {
      ElseOpensAtStart(s.elsePart.value, s.thenPart.end, s.end, q);
    }
    match c
    case TakeThen(body, _) =>
      var after := if s.elsePart.Some? then s.elsePart.value.start else next;
      if p[0] == 0 {
        InsideBody(s.thenPart, body, first[0], after, s.start, s.end, line, p[1..]);
      } else {
        if line != next {
          TraceRange(s.thenPart, body, after, s.start, s.end, line);
        }
        assert false;
      }
    case TakeElse(body) =>
      var e := s.elsePart.value;
      if p[0] == 0 {
        TraceRange(e, body, next, s.thenPart.end, s.end, line);
        assert false;
      }
      if e.IfStmt? {
        InsideChain(e, body, ElseIf, next, s.thenPart.end, s.end, line, q);
      } else {
        ElseFits(e, s.thenPart.end, s.end);
        NestedAt(ExtractElse(e)[0], q[1..]);
        InsideBody(e, body, ExtractElse(e)[0], next, s.thenPart.end, s.end, line, q[1..]);
      }
    case TakeNone =>
      assert false;
  }

  lemma {:induction false} ElseOpensAtStart(s: Stmt, lo: int, hi: int, p: Path)
    requires Laid(s, lo, hi) && InForest(ExtractElse(s), p)
    ensures s.start <= ForestAt(ExtractElse(s), p).openBrace
  {
    assert Laid(s, s.start, hi);
    ElseFits(s, s.start, hi);
    FitsAt(ExtractElse(s), s.start, hi, p);
  }

  lemma {:induction false} InsideBody(
    s: Stmt, c: Choice, b: Block, next: int, lo: int, hi: int, line: int, p: Path)
    requires Laid(s, lo, hi) && Follows(s, c) && s.end <= next
    requires b.openBrace == s.start && b.closeBrace == s.end && b.children == ExtractBody(s)
    requires s.BlockStmt? ==> line == next || line in Traces(s, c, next)
    requires Has(b, p) && BetweenBraces(b, line) && BetweenBraces(At(b, p), line)
    ensures BodyEntered(s, c, p)
    decreases s, 1
  {
    if p != [] {
      assert p[0] < |b.children|;
      var statements := s.statements;
      if line in TracesAll(statements, c.choices, s.end) {
        InsideMeansEntered(statements, c.choices, s.start, s.end, line, p);
      } else {
        AfterFirstToken(statements, s.start, s.end, p);
        assert false;
      }
    }
  }

  // ---------------------------------------------------------------- entering a block enters its ancestors

  lemma {:induction false} EnteredPrefix(statements: seq<Stmt>, choices: seq<Choice>, p: Path, q: Path)
    requires FollowsAll(statements, choices) && p != [] && p <= q
    requires Entered(statements, choices, q)
    ensures Entered(statements, choices, p)
    decreases statements, 0
  {
    var n := |ExtractStmt(statements[0])|;
    if p[0] < n {
      ChainPrefix(statements[0], choices[0], p, q);
    } else {
      EnteredPrefix(statements[1..], choices[1..], [p[0] - n] + p[1..], [q[0] - n] + q[1..]);
    }
  }

  lemma {:induction false} ChainPrefix(s: Stmt, c: Choice, p: Path, q: Path)
    requires s.IfStmt? && Follows(s, c) && p != [] && p <= q
    requires ChainEntered(s, c, q)
    ensures ChainEntered(s, c, p)
    decreases s, 2
  {
    match c
    case TakeThen(body, _) =>
      BodyPrefix(s.thenPart, body, p[1..], q[1..]);
    case TakeElse(body) =>
      var e := s.elsePart.value;
      var p', q' := [p[0] - 1] + p[1..], [q[0] - 1] + q[1..];
      if e.IfStmt? {
        ChainPrefix(e, body, p', q');
      } else {
        BodyPrefix(e, body, p'[1..], q'[1..]);
      }
    case TakeNone =>
  }

  lemma {:induction false} BodyPrefix(s: Stmt, c: Choice, p: Path, q: Path)
    requires Follows(s, c) && p <= q && BodyEntered(s, c, q)
    ensures BodyEntered(s, c, p)
    decreases s, 1
  {
    if p != [] {
      EnteredPrefix(s.statements, c.choices, p, q);
    }
  }

  // ---------------------------------------------------------------- soundness

  lemma InvocationSound(subs: seq<SubDecl>, run: seq<Invocation>, k: nat, line: int, p: Path)
    requires LaidFile(subs) && FollowsFile(subs, run) && k < |run|
    requires line in SubTraces(subs[run[k].sub], run[k].choices)
    requires InForest(ExtractFile(subs), p)
    requires BetweenBraces(ForestAt(ExtractFile(subs), p), line)
    ensures SubEntered(subs, run[k], p)
  {
    var forest := ExtractFile(subs);
    ExtractionNests(subs);
    NestedAt(forest[p[0]], p[1..]);
    var sub := subs[run[k].sub];
    var body := sub.body;
    FirstTokenRange(body.statements, body.start, body.end);
    if line in TracesAll(body.statements, run[k].choices, body.end) {
      TraceRangeAll(body.statements, run[k].choices, body.start, body.end, line);
    }
    if run[k].sub != p[0] {
      assert false;
    }
    if p[1..] != [] {
      assert p[1..][0] < |forest[p[0]].children|;
      if line in TracesAll(body.statements, run[k].choices, body.end) {
        InsideMeansEntered(body.statements, run[k].choices, body.start, body.end, line, p[1..]);
      } else {
        AfterFirstToken(body.statements, body.start, body.end, p[1..]);
        assert false;
      }
    }
  }

  /** For every file laid out in source order and every execution of it, through any number of invocations and
      any branch outcomes: a block marked from the traced lines was really entered by that execution. */
  lemma CoverageSound(subs: seq<SubDecl>, run: seq<Invocation>, p: Path)
    requires LaidFile(subs) && FollowsFile(subs, run)
    requires InForest(ExtractFile(subs), p)
    ensures var marked := MarkForest(ExtractFile(subs), FileTraces(subs, run));
            InForest(marked, p) && (ForestAt(marked, p).entered ==> FileEntered(subs, run, p))
  {
    var forest, traced := ExtractFile(subs), FileTraces(subs, run);
    MarkedExactly(forest, traced, p);
    if ForestAt(MarkForest(forest, traced), p).entered {
      FileFresh(subs);
      var q :| p <= q && InForest(forest, q) && Cause(ForestAt(forest, q), traced);
      var line :| line in traced && OwnLine(ForestAt(forest, q), line);
      var k :| 0 <= k < |run| && line in SubTraces(subs[run[k].sub], run[k].choices);
      InvocationSound(subs, run, k, line, q);
      if p[1..] != [] {
        EnteredPrefix(subs[run[k].sub].body.statements, run[k].choices, p[1..], q[1..]);
      }
      assert SubEntered(subs, run[k], p);
    }
  }

  // ---------------------------------------------------------------- when marking misses nothing

  /** The line of the first token inside the braced block at path p. */
  function FirstTokenAt(statements: seq<Stmt>, p: Path): Option<int>
    decreases statements, 0
  {
    if statements == [] || p == [] then None
    else
      var n := |ExtractStmt(statements[0])|;
      if p[0] < n then ChainFirst(statements[0], p) else FirstTokenAt(statements[1..], [p[0] - n] + p[1..])
  }

  function ChainFirst(s: Stmt, p: Path): Option<int>
    requires s.IfStmt? && p != []
    decreases s, 2
  {
    if p[0] == 0 then BodyFirst(s.thenPart, p[1..])
    else if s.elsePart.Some? then ElseFirst(s.elsePart.value, [p[0] - 1] + p[1..])
    else None
  }

  function ElseFirst(s: Stmt, p: Path): Option<int>
    requires p != []
    decreases s, 3
  {
    if s.IfStmt? then ChainFirst(s, p) else if p[0] == 0 then BodyFirst(s, p[1..]) else None
  }

  function BodyFirst(s: Stmt, p: Path): Option<int>
    decreases s, 1
  {
    if !s.BlockStmt? then None
    else if p == [] then Some(FirstToken(s.statements, s.end))
    else FirstTokenAt(s.statements, p)
  }

  function FileFirstToken(subs: seq<SubDecl>, p: Path): Option<int> {
    if p == [] || p[0] >= |subs| || subs[p[0]].body.NoBody? then None
    else
      var body := subs[p[0]].body;
      if p[1..] == [] then Some(FirstToken(body.statements, body.end)) else FirstTokenAt(body.statements, p[1..])
  }

  lemma {:induction false} EnteredIsTraced(statements: seq<Stmt>, choices: seq<Choice>, end: int, p: Path, line: int)
    requires FollowsAll(statements, choices) && Entered(statements, choices, p)
    requires FirstTokenAt(statements, p) == Some(line)
    ensures line in TracesAll(statements, choices, end)
    decreases statements, 0
  {
    var n := |ExtractStmt(statements[0])|;
    if p[0] < n {
      ChainIsTraced(statements[0], choices[0], FirstToken(statements[1..], end), p, line);
    } else {
      EnteredIsTraced(statements[1..], choices[1..], end, [p[0] - n] + p[1..], line);
    }
  }

  lemma {:induction false} ChainIsTraced(s: Stmt, c: Choice, next: int, p: Path, line: int)
    requires s.IfStmt? && Follows(s, c) && p != [] && ChainEntered(s, c, p)
    requires ChainFirst(s, p) == Some(line)
    ensures line in Traces(s, c, next)
    decreases s, 2
  {
    match c
    case TakeThen(body, _) =>
      BodyIsTraced(s.thenPart, body, if s.elsePart.Some? then s.elsePart.value.start else next, p[1..], line);
    case TakeElse(body) =>
      var e, q := s.elsePart.value, [p[0] - 1] + p[1..];
      if e.IfStmt? {
        ChainIsTraced(e, body, next, q, line);
      } else {
        BodyIsTraced(e, body, next, q[1..], line);
      }
    case TakeNone =>
  }

  lemma {:induction false} BodyIsTraced(s: Stmt, c: Choice, next: int, p: Path, line: int)
    requires Follows(s, c) && BodyEntered(s, c, p)
    requires BodyFirst(s, p) == Some(line)
    ensures line in Traces(s, c, next)
    decreases s, 1
  {
    if p != [] {
      EnteredIsTraced(s.statements, c.choices, s.end, p, line);
    }
  }

  /** Where the first token of a braced block has a line that is the block's own - between its braces and in none
      of its children - coverage of that block is exact: it is marked if and only if it was entered.
      `HiddenEntries` has the converse. */
  lemma CoverageExact(subs: seq<SubDecl>, run: seq<Invocation>, p: Path, line: int)
    requires LaidFile(subs) && FollowsFile(subs, run)
    requires InForest(ExtractFile(subs), p)
    requires FileFirstToken(subs, p) == Some(line) && OwnLine(ForestAt(ExtractFile(subs), p), line)
    ensures var marked := MarkForest(ExtractFile(subs), FileTraces(subs, run));
            InForest(marked, p) && (ForestAt(marked, p).entered <==> FileEntered(subs, run, p))
  {
    var forest, traced := ExtractFile(subs), FileTraces(subs, run);
    CoverageSound(subs, run, p);
    MarkedExactly(forest, traced, p);
    if FileEntered(subs, run, p) {
      var k :| 0 <= k < |run| && SubEntered(subs, run[k], p);
      var body := subs[run[k].sub].body;
      if p[1..] != [] {
        EnteredIsTraced(body.statements, run[k].choices, body.end, p[1..], line);
      }
      assert line in SubTraces(subs[run[k].sub], run[k].choices);
      assert line in traced;
      assert p <= p && Cause(ForestAt(forest, p), traced);
    }
  }

  // ---------------------------------------------------------------- the whole analysis of one file

  /** What the runner does for each file, here one without includes: extract its blocks afresh, then mark them from
      the traced lines. */
  method CoverFile(subs: seq<SubDecl>, tracedLines: seq<int>) returns (blocks: seq<BlockNode>)
    ensures ValidForest(blocks)
    ensures ForestView(blocks) == MarkForest(ExtractFile(subs), set line | line in tracedLines)
  {
    blocks := AnalyzeVCL(subs);
    MatchTracesToBlocks(blocks, tracedLines);
  }
}
