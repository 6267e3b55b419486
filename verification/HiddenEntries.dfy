/** When coverage misses a block that was entered: the executions that slip through a block whose first token has
    no line of its own, and the exact condition under which there is none. */
module HiddenEntries {
  import opened Common
  import opened Blocks
  import opened Analyzer
  import opened TraceRuns

  // ---------------------------------------------------------------- executions that can happen

  /** The statement runs to its end. */
  predicate Completes(s: Stmt, c: Choice)
    requires Follows(s, c)
    decreases s, 1
  {
    match s
    case Simple(_, _) => true
    case BlockStmt(_, _, statements) => CompletesAll(statements, c.choices)
    case IfStmt(_, _, _, thenPart, elsePart) =>
      match c
      case TakeThen(body, _) => Completes(thenPart, body)
      case TakeElse(body) => Completes(elsePart.value, body)
      case TakeNone => true
  }

  predicate CompletesAll(statements: seq<Stmt>, choices: seq<Choice>)
    requires FollowsAll(statements, choices)
    decreases statements, 0
  {
    if choices == [] then statements == []
    else Completes(statements[0], choices[0]) && CompletesAll(statements[1..], choices[1..])
  }

  /** Leaving a block early ends the sub: only the last thing executed may be cut short, and what is cut short traces
      nothing after its chain. */
  predicate EndsOnce(statements: seq<Stmt>, choices: seq<Choice>)
    requires FollowsAll(statements, choices)
    decreases statements, 0
  {
    choices == [] ||
    (if choices[1..] == [] then StmtEndsOnce(statements[0], choices[0])
     else Completes(statements[0], choices[0]) && StmtEndsOnce(statements[0], choices[0])
          && EndsOnce(statements[1..], choices[1..]))
  }

  predicate StmtEndsOnce(s: Stmt, c: Choice)
    requires Follows(s, c)
    decreases s, 1
  {
    match s
    case Simple(_, _) => true
    case BlockStmt(_, _, statements) => EndsOnce(statements, c.choices)
    case IfStmt(_, _, _, thenPart, elsePart) =>
      match c
      case TakeThen(body, markAfter) => StmtEndsOnce(thenPart, body) && (markAfter ==> Completes(thenPart, body))
      case TakeElse(body) => StmtEndsOnce(elsePart.value, body)
      case TakeNone => true
  }

  /** Every invocation of the run can happen. */
  predicate CanHappen(subs: seq<SubDecl>, run: seq<Invocation>)
    requires FollowsFile(subs, run)
  {
    forall k :: 0 <= k < |run| ==> EndsOnce(subs[run[k].sub].body.statements, run[k].choices)
  }

  // ---------------------------------------------------------------- an execution that leaves the block at once

  /** A way through a statement to its end: the first branch of every chain that has an else, no branch of any other. */
  function Through(s: Stmt): (c: Choice)
    ensures Follows(s, c) && Completes(s, c) && StmtEndsOnce(s, c)
    decreases s, 1
  {
    match s
    case Simple(_, _) => Plain
    case BlockStmt(_, _, statements) => InBlock(ThroughAll(statements))
    case IfStmt(_, _, _, thenPart, elsePart) =>
      if elsePart.Some? then TakeThen(Through(thenPart), false) else TakeNone
  }

  function ThroughAll(statements: seq<Stmt>): (choices: seq<Choice>)
    ensures FollowsAll(statements, choices) && CompletesAll(statements, choices) && EndsOnce(statements, choices)
    decreases statements, 0
  {
    if statements == [] then [] else [Through(statements[0])] + ThroughAll(statements[1..])
  }

  /** The way to the braced block at path p: past the statements before it, into the branches around it, and out
      of it before its first statement. */
  function Toward(statements: seq<Stmt>, p: Path): (choices: seq<Choice>)
    requires FirstTokenAt(statements, p).Some?
    ensures FollowsAll(statements, choices) && choices != [] && EndsOnce(statements, choices)
    decreases statements, 0
  {
    var n := |ExtractStmt(statements[0])|;
    if p[0] < n then [TowardChain(statements[0], p)]
    else [Through(statements[0])] + Toward(statements[1..], [p[0] - n] + p[1..])
  }

  function TowardChain(s: Stmt, p: Path): (c: Choice)
    requires s.IfStmt? && p != [] && ChainFirst(s, p).Some?
    ensures Follows(s, c) && StmtEndsOnce(s, c)
    decreases s, 2
  {
    if p[0] == 0 then TakeThen(TowardBody(s.thenPart, p[1..]), false)
    else TakeElse(TowardElse(s.elsePart.value, [p[0] - 1] + p[1..]))
  }

  function TowardElse(s: Stmt, p: Path): (c: Choice)
    requires p != [] && ElseFirst(s, p).Some?
    ensures Follows(s, c) && StmtEndsOnce(s, c)
    decreases s, 3
  {
    if s.IfStmt? then TowardChain(s, p) else TowardBody(s, p[1..])
  }

  function TowardBody(s: Stmt, p: Path): (c: Choice)
    requires BodyFirst(s, p).Some?
    ensures Follows(s, c) && StmtEndsOnce(s, c)
    decreases s, 1
  {
    if p == [] then InBlock([]) else InBlock(Toward(s.statements, p))
  }

  // ---------------------------------------------------------------- it enters the block

  lemma {:induction false} TowardEnters(statements: seq<Stmt>, p: Path)
    requires FirstTokenAt(statements, p).Some?
    ensures Entered(statements, Toward(statements, p), p)
    decreases statements, 0
  {
    var n := |ExtractStmt(statements[0])|;
    if p[0] < n {
      TowardEntersChain(statements[0], p);
    } else {
      TowardEnters(statements[1..], [p[0] - n] + p[1..]);
      assert Toward(statements, p)[1..] == Toward(statements[1..], [p[0] - n] + p[1..]);
    }
  }

  lemma {:induction false} TowardEntersChain(s: Stmt, p: Path)
    requires s.IfStmt? && p != [] && ChainFirst(s, p).Some?
    ensures ChainEntered(s, TowardChain(s, p), p)
    decreases s, 2
  {
    if p[0] == 0 {
      TowardEntersBody(s.thenPart, p[1..]);
    } else {
      var e, q := s.elsePart.value, [p[0] - 1] + p[1..];
      if e.IfStmt? {
        TowardEntersChain(e, q);
      } else {
        TowardEntersBody(e, q[1..]);
      }
    }
  }

  lemma {:induction false} TowardEntersBody(s: Stmt, p: Path)
    requires BodyFirst(s, p).Some?
    ensures BodyEntered(s, TowardBody(s, p), p)
    decreases s, 1
  {
    if p != [] {
      TowardEnters(s.statements, p);
    }
  }

  // ---------------------------------------------------------------- and traces nothing past its opening brace

  /** Apart from the block's first token, every line traced on the way is at or before the block's open brace. */
  lemma {:induction false} TowardTraces(statements: seq<Stmt>, lo: int, hi: int, p: Path, line: int)
    requires LaidInOrder(statements, lo, hi) && FirstTokenAt(statements, p).Some?
    requires InForest(ExtractNested(statements), p)
    requires line in TracesAll(statements, Toward(statements, p), hi)
    ensures line <= ForestAt(ExtractNested(statements), p).openBrace || FirstTokenAt(statements, p) == Some(line)
    decreases statements, 0
  {
    var s, rest := statements[0], statements[1..];
    var here, next := ExtractStmt(s), FirstToken(rest, hi);
    var choices := Toward(statements, p);
    ShiftPath(here, ExtractNested(rest), p);
    FirstTokenRange(rest, s.end, hi);
    if p[0] < |here| {
      assert choices[1..] == [];
      TowardTracesChain(s, If, next, lo, hi, p, line);
    } else {
      var q := [p[0] - |here|] + p[1..];
      assert choices[1..] == Toward(rest, q);
      AfterFirstToken(rest, s.end, hi, q);
      if line in Traces(s, choices[0], next) {
        TraceRange(s, choices[0], next, lo, hi, line);
      } else {
        TowardTraces(rest, s.end, hi, q, line);
      }
    }
  }

  lemma {:induction false} TowardTracesChain(s: Stmt, kind: Kind, next: int, lo: int, hi: int, p: Path, line: int)
    requires s.IfStmt? && Laid(s, lo, hi) && p != [] && ChainFirst(s, p).Some?
    requires InForest(ExtractChain(s, kind), p)
    requires line in Traces(s, TowardChain(s, p), next)
    ensures line <= ForestAt(ExtractChain(s, kind), p).openBrace || ChainFirst(s, p) == Some(line)
    decreases s, 2
  {
    var first := [ExtractIf(s, kind)];
    ShiftPath(first, if s.elsePart.Some? then ExtractElse(s.elsePart.value) else [], p);
    if p[0] == 0 {
      var after := if s.elsePart.Some? then s.elsePart.value.start else next;
      TowardTracesBody(s.thenPart, first[0], after, s.start, s.end, p[1..], line);
    } else {
      var e, q := s.elsePart.value, [p[0] - 1] + p[1..];
      if e.IfStmt? {
        TowardTracesChain(e, ElseIf, next, s.thenPart.end, s.end, q, line);
      } else {
        TowardTracesBody(e, ExtractElse(e)[0], next, s.thenPart.end, s.end, q[1..], line);
      }
    }
  }

  lemma {:induction false} TowardTracesBody(
    s: Stmt, b: Block, next: int, lo: int, hi: int, p: Path, line: int)
    requires Laid(s, lo, hi) && BodyFirst(s, p).Some?
    requires b.openBrace == s.start && b.children == ExtractBody(s) && Has(b, p)
    requires line in Traces(s, TowardBody(s, p), next)
    ensures line <= At(b, p).openBrace || BodyFirst(s, p) == Some(line)
    decreases s, 1
  {
    if p != [] {
      AfterFirstToken(s.statements, s.start, s.end, p);
      if line in TracesAll(s.statements, Toward(s.statements, p), s.end) {
        TowardTraces(s.statements, s.start, s.end, p, line);
      }
    }
  }

  /** One invocation that goes to the block at path p and leaves it at once. */
  function Visit(subs: seq<SubDecl>, p: Path): Invocation
    requires FileFirstToken(subs, p).Some?
  {
    Invocation(p[0], if p[1..] == [] then [] else Toward(subs[p[0]].body.statements, p[1..]))
  }

  lemma VisitEnters(subs: seq<SubDecl>, p: Path)
    requires FileFirstToken(subs, p).Some?
    ensures FollowsFile(subs, [Visit(subs, p)]) && CanHappen(subs, [Visit(subs, p)])
    ensures FileEntered(subs, [Visit(subs, p)], p)
  {
    if p[1..] != [] {
      TowardEnters(subs[p[0]].body.statements, p[1..]);
    }
    assert SubEntered(subs, [Visit(subs, p)][0], p);
  }

  lemma VisitTraces(subs: seq<SubDecl>, p: Path, line: int)
    requires LaidFile(subs) && FileFirstToken(subs, p).Some? && InForest(ExtractFile(subs), p)
    requires FollowsFile(subs, [Visit(subs, p)]) && line in FileTraces(subs, [Visit(subs, p)])
    ensures line <= ForestAt(ExtractFile(subs), p).openBrace || FileFirstToken(subs, p) == Some(line)
  {
    var body := subs[p[0]].body;
    if p[1..] != [] {
      assert p[1..][0] < |ExtractFile(subs)[p[0]].children|;
      AfterFirstToken(body.statements, body.start, body.end, p[1..]);
      if line in TracesAll(body.statements, Toward(body.statements, p[1..]), body.end) {
        TowardTraces(body.statements, body.start, body.end, p[1..], line);
      }
    }
  }

  // ---------------------------------------------------------------- no block below the first token

  /** Blocks nested in a braced block open at or after its first token. */
  lemma {:induction false} NestedAfterFirst(statements: seq<Stmt>, lo: int, hi: int, p: Path, r: Path)
    requires LaidInOrder(statements, lo, hi) && FirstTokenAt(statements, p).Some?
    requires InForest(ExtractNested(statements), p)
    requires r != [] && Has(ForestAt(ExtractNested(statements), p), r)
    ensures FirstTokenAt(statements, p).value <= At(ForestAt(ExtractNested(statements), p), r).openBrace
    decreases statements, 0
  {
    var s, rest := statements[0], statements[1..];
    var here := ExtractStmt(s);
    ShiftPath(here, ExtractNested(rest), p);
    if p[0] < |here| {
      NestedAfterFirstChain(s, If, lo, hi, p, r);
    } else {
      NestedAfterFirst(rest, s.end, hi, [p[0] - |here|] + p[1..], r);
    }
  }

  lemma {:induction false} NestedAfterFirstChain(s: Stmt, kind: Kind, lo: int, hi: int, p: Path, r: Path)
    requires s.IfStmt? && Laid(s, lo, hi) && p != [] && ChainFirst(s, p).Some?
    requires InForest(ExtractChain(s, kind), p)
    requires r != [] && Has(ForestAt(ExtractChain(s, kind), p), r)
    ensures ChainFirst(s, p).value <= At(ForestAt(ExtractChain(s, kind), p), r).openBrace
    decreases s, 2
  {
    var first := [ExtractIf(s, kind)];
    ShiftPath(first, if s.elsePart.Some? then ExtractElse(s.elsePart.value) else [], p);
    if p[0] == 0 {
      NestedAfterFirstBody(s.thenPart, first[0], s.start, s.end, p[1..], r);
    } else {
      var e, q := s.elsePart.value, [p[0] - 1] + p[1..];
      if e.IfStmt? {
        NestedAfterFirstChain(e, ElseIf, s.thenPart.end, s.end, q, r);
      } else {
        NestedAfterFirstBody(e, ExtractElse(e)[0], s.thenPart.end, s.end, q[1..], r);
      }
    }
  }

  lemma {:induction false} NestedAfterFirstBody(s: Stmt, b: Block, lo: int, hi: int, p: Path, r: Path)
    requires Laid(s, lo, hi) && BodyFirst(s, p).Some?
    requires b.children == ExtractBody(s) && Has(b, p)
    requires r != [] && Has(At(b, p), r)
    ensures BodyFirst(s, p).value <= At(At(b, p), r).openBrace
    decreases s, 1
  {
    if p == [] {
      assert InForest(ExtractNested(s.statements), r);
      AfterFirstToken(s.statements, s.start, s.end, r);
    } else {
      NestedAfterFirst(s.statements, s.start, s.end, p, r);
    }
  }

  lemma FileNestedAfterFirst(subs: seq<SubDecl>, p: Path, r: Path)
    requires LaidFile(subs) && FileFirstToken(subs, p).Some? && InForest(ExtractFile(subs), p)
    requires r != [] && Has(ForestAt(ExtractFile(subs), p), r)
    ensures FileFirstToken(subs, p).value <= At(ForestAt(ExtractFile(subs), p), r).openBrace
  {
    var body := subs[p[0]].body;
    if p[1..] == [] {
      assert InForest(ExtractNested(body.statements), r);
      AfterFirstToken(body.statements, body.start, body.end, r);
    } else {
      assert p[1..][0] < |ExtractFile(subs)[p[0]].children|;
      NestedAfterFirst(body.statements, body.start, body.end, p[1..], r);
    }
  }

  // ---------------------------------------------------------------- the exact condition

  /** The execution enters the block if and only if marking from its traces marks it. */
  predicate ToldBy(subs: seq<SubDecl>, run: seq<Invocation>, p: Path)
    requires FollowsFile(subs, run)
  {
    var marked := MarkForest(ExtractFile(subs), FileTraces(subs, run));
    InForest(marked, p) && (ForestAt(marked, p).entered <==> FileEntered(subs, run, p))
  }

  /** A block whose first token has no line of its own is entered and left unmarked by the execution that leaves it
      at once. */
  lemma VisitIsHidden(subs: seq<SubDecl>, p: Path, line: int)
    requires LaidFile(subs) && InForest(ExtractFile(subs), p)
    requires FileFirstToken(subs, p) == Some(line) && !OwnLine(ForestAt(ExtractFile(subs), p), line)
    ensures var run := [Visit(subs, p)];
            && FollowsFile(subs, run) && CanHappen(subs, run) && FileEntered(subs, run, p)
            && InForest(MarkForest(ExtractFile(subs), FileTraces(subs, run)), p)
            && !ForestAt(MarkForest(ExtractFile(subs), FileTraces(subs, run)), p).entered
  {
    var forest, run := ExtractFile(subs), [Visit(subs, p)];
    VisitEnters(subs, p);
    var traced := FileTraces(subs, run);
    MarkedExactly(forest, traced, p);
    FileFresh(subs);
    ExtractionNests(subs);
    NestedAt(forest[p[0]], p[1..]);
    var b := ForestAt(forest, p);
    forall q, l | p <= q && InForest(forest, q) && l in traced ensures !OwnLine(ForestAt(forest, q), l) {
      var r := q[|p|..];
      assert q == p + r;
      ForestAtExtends(forest, p, r);
      NestedAt(b, r);
      VisitTraces(subs, p, l);
      if r == [] {
        assert q == p;
      } else {
        FileNestedAfterFirst(subs, p, r);
      }
    }
    assert forall q :: p <= q && InForest(forest, q) ==> !Cause(ForestAt(forest, q), traced);
  }

  /** Coverage of a braced block is exact for every execution that can happen if and only if the block's first token
      lies on a line of the block's own: strictly between its braces and in none of the blocks nested in it.  The
      statement at which an execution ends may be the first one of a block. */
  lemma CoverageExactlyWhen(subs: seq<SubDecl>, p: Path, line: int)
    requires LaidFile(subs) && InForest(ExtractFile(subs), p)
    requires FileFirstToken(subs, p) == Some(line)
    ensures (forall run :: FollowsFile(subs, run) && CanHappen(subs, run) ==> ToldBy(subs, run, p))
            <==> OwnLine(ForestAt(ExtractFile(subs), p), line)
  {
    if OwnLine(ForestAt(ExtractFile(subs), p), line) {
      forall run | FollowsFile(subs, run) && CanHappen(subs, run) ensures ToldBy(subs, run, p) {
        CoverageExact(subs, run, p, line);
      }
    } else {
      VisitIsHidden(subs, p, line);
      assert !ToldBy(subs, [Visit(subs, p)], p);
    }
  }

  // ---------------------------------------------------------------- one that runs to its end

  /** Leaving early is not needed for that: a sub whose only statement is an if that is not taken runs to its end
      and stays unmarked. */
  lemma UntakenIfHidesEntry(name: string, condition: string)
    ensures var subs :=
              [SubDecl(name, 1, Body(1, 5, [IfStmt(2, 4, condition, BlockStmt(2, 4, [Simple(3, 3)]), None)]))];
            var run := [Invocation(0, [TakeNone])];
            && LaidFile(subs) && FollowsFile(subs, run)
            && CanHappen(subs, run) && CompletesAll(subs[0].body.statements, run[0].choices)
            && InForest(ExtractFile(subs), [0]) && FileEntered(subs, run, [0])
            && !MarkForest(ExtractFile(subs), FileTraces(subs, run))[0].entered
  {
    var inner := BlockStmt(2, 4, [Simple(3, 3)]);
    var chain := IfStmt(2, 4, condition, inner, None);
    var statements := [chain];
    var subs := [SubDecl(name, 1, Body(1, 5, statements))];
    var run := [Invocation(0, [TakeNone])];
    assert LaidInOrder([Simple(3, 3)], 2, 4) && Laid(inner, 2, 4);
    assert Laid(chain, 1, 5) && LaidInOrder(statements, 1, 5);
    assert statements[1..] == [] && [TakeNone][1..] == [];
    assert Follows(chain, TakeNone) && FollowsAll(statements[1..], [TakeNone][1..]);
    assert FollowsAll(statements, [TakeNone]);
    assert [0][1..] == [];
    assert SubEntered(subs, run[0], [0]);
    HiddenEntryTraces(subs, run, chain);
    HiddenEntryUnmarked(subs, chain, FileTraces(subs, run));
  }

  lemma HiddenEntryTraces(subs: seq<SubDecl>, run: seq<Invocation>, chain: Stmt)
    requires chain.IfStmt? && chain.elsePart.None? && chain.start == 2
    requires |subs| == 1 && subs[0].body == Body(1, 5, [chain]) && run == [Invocation(0, [TakeNone])]
    requires FollowsFile(subs, run)
    ensures FileTraces(subs, run) == {2, 5}
  {
    var statements := [chain];
    var choices := run[0].choices;
    assert statements[1..] == [] && choices[1..] == [];
    assert FollowsAll(subs[run[0].sub].body.statements, choices);
    assert TracesAll(statements, choices, 5) == {5} + TracesAll(statements[1..], choices[1..], 5);
    assert SubTraces(subs[0], run[0].choices) == {2, 5};
    assert 2 in FileTraces(subs, run) && 5 in FileTraces(subs, run);
  }

  lemma HiddenEntryUnmarked(subs: seq<SubDecl>, chain: Stmt, traced: set<int>)
    requires |subs| == 1 && subs[0].body == Body(1, 5, [chain]) && traced == {2, 5}
    requires chain.IfStmt? && chain.elsePart.None? && chain.thenPart == BlockStmt(2, 4, [Simple(3, 3)])
    ensures !MarkForest(ExtractFile(subs), traced)[0].entered
  {
    var statements := [chain];
    assert statements[1..] == [] && [Simple(3, 3)][1..] == [];
    var child := ExtractIf(chain, If);
    var inner := [Simple(3, 3)];
    assert ExtractNested(inner[1..]) == [] && ExtractStmt(inner[0]) == [];
    assert ExtractNested(inner) == ExtractStmt(inner[0]) + ExtractNested(inner[1..]) == [];
    assert chain.thenPart.statements == inner && ExtractBody(chain.thenPart) == ExtractNested(inner);
    assert child.children == [] && child.openBrace == 2 && child.closeBrace == 4;
    assert ExtractChain(chain, If) == [child];
    assert ExtractNested(statements) == ExtractStmt(chain) + ExtractNested(statements[1..]) == [child];
    var b := ExtractFile(subs)[0];
    assert b.children == [child];
    assert !OwnTrace(child, traced);
    assert LineInBlock(b.children[0], 2);
    assert !OwnTrace(b, traced);
    var marked := Mark(b, traced);
    assert |marked.children| == 1 && marked.children[0] == Mark(child, traced);
    assert !Mark(child, traced).entered;
  }
}
