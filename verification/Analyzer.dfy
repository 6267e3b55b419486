/** Block extraction: from the statements of a VCL file to the forest of blocks that coverage works on
    (`pkg/coverage/analyzer.go`).  The syntax tree has the shape the analyzer reads; each node carries the lines
    of its first and last token. */
module Analyzer {
  import opened Common
  import opened Blocks
  import opened BlockHeap

  datatype Stmt =
    | IfStmt(start: int, end: int, condition: string, thenPart: Stmt, elsePart: Option<Stmt>)
    | BlockStmt(start: int, end: int, statements: seq<Stmt>)
    | Simple(start: int, end: int)

  datatype Body = NoBody | Body(start: int, end: int, statements: seq<Stmt>)

  datatype SubDecl = SubDecl(name: string, start: int, body: Body)

  // ---------------------------------------------------------------- extraction over values

  function ExtractSub(sub: SubDecl): Block {
    match sub.body
    case NoBody => Block(Sub, sub.name, sub.start, 0, 0, false, [])
    case Body(start, end, statements) =>
      Block(Sub, sub.name, sub.start, start, end, false, ExtractNested(statements))
  }

  function ExtractFile(subs: seq<SubDecl>): seq<Block> {
    seq(|subs|, i requires 0 <= i < |subs| => ExtractSub(subs[i]))
  }

  /** Only if-statements contribute blocks; bare blocks and simple statements are passed over. */
  function ExtractNested(statements: seq<Stmt>): seq<Block>
    decreases statements, 0
  {
    if statements == [] then []
    else ExtractStmt(statements[0]) + ExtractNested(statements[1..])
  }

  function ExtractStmt(s: Stmt): seq<Block>
    decreases s, 3
  {
    if s.IfStmt? then ExtractChain(s, If) else []
  }

  /** An if-statement and the branches after it, flattened to siblings. */
  function ExtractChain(s: Stmt, kind: Kind): seq<Block>
    requires s.IfStmt?
    decreases s, 2
  {
    [ExtractIf(s, kind)] + if s.elsePart.Some? then ExtractElse(s.elsePart.value) else []
  }

  function ExtractIf(s: Stmt, kind: Kind): Block
    requires s.IfStmt?
    decreases s, 1
  {
    Block(kind, s.condition, s.start, s.thenPart.start, s.thenPart.end, false, ExtractBody(s.thenPart))
  }

  function ExtractBody(s: Stmt): seq<Block>
    decreases s, 1
  {
    if s.BlockStmt? then ExtractNested(s.statements) else []
  }

  function ExtractElse(s: Stmt): seq<Block>
    decreases s, 3
  {
    if s.IfStmt? then ExtractChain(s, ElseIf)
    else [Block(Else, "", s.start, s.start, s.end, false, ExtractBody(s))]
  }

  // ---------------------------------------------------------------- extraction as the analyzer performs it

  method AnalyzeVCL(subs: seq<SubDecl>) returns (blocks: seq<BlockNode>)
    ensures ValidForest(blocks) && fresh(ForestRepr(blocks))
    ensures ForestView(blocks) == ExtractFile(subs)
    ensures |blocks| == |subs|
    ensures forall i :: 0 <= i < |subs| ==>
                          && blocks[i].kind == Sub && blocks[i].name == subs[i].name
                          && blocks[i].headerLine == subs[i].start && !blocks[i].entered
                          && (if subs[i].body.NoBody? then blocks[i].openBrace == 0 == blocks[i].closeBrace
                              else blocks[i].openBrace == subs[i].body.start
                                   && blocks[i].closeBrace == subs[i].body.end)
  {
    blocks := [];
    for i := 0 to |subs|
      invariant ValidForest(blocks) && fresh(ForestRepr(blocks))
      invariant ForestView(blocks) == ExtractFile(subs[..i])
    {
      var block := BuildSub(subs[i]);
      blocks := Append(blocks, [block]);
      assert ExtractFile(subs[..i + 1]) == ExtractFile(subs[..i]) + [ExtractSub(subs[i])];
      assert ForestView([block]) == [ExtractSub(subs[i])];
    }
    assert subs[..|subs|] == subs;
    forall i | 0 <= i < |subs| ensures blocks[i].View() == ExtractSub(subs[i]) {
      assert ForestView(blocks)[i] == ExtractFile(subs)[i];
    }
  }

  method BuildSub(sub: SubDecl) returns (block: BlockNode)
    ensures block.Valid() && fresh(block.repr) && block.View() == ExtractSub(sub)
  {
    if sub.body.NoBody? {
      block := new BlockNode(Sub, sub.name, sub.start, 0, 0, []);
    } else {
      var children := BuildNested(sub.body.statements);
      block := new BlockNode(Sub, sub.name, sub.start, sub.body.start, sub.body.end, children);
    }
  }

  lemma {:induction false} NestedNext(statements: seq<Stmt>, i: nat)
    requires i < |statements|
    ensures ExtractNested(statements[..i + 1]) == ExtractNested(statements[..i]) + ExtractStmt(statements[i])
    decreases i
  {
    if i == 0 {
      assert statements[..1][1..] == [];
    } else {
      var rest := statements[1..];
      NestedNext(rest, i - 1);
      assert statements[..i + 1][1..] == rest[..i] && statements[..i][1..] == rest[..i - 1];
    }
  }

  method BuildNested(statements: seq<Stmt>) returns (blocks: seq<BlockNode>)
    ensures ValidForest(blocks) && fresh(ForestRepr(blocks))
    ensures ForestView(blocks) == ExtractNested(statements)
    decreases statements, 0
  {
    blocks := [];
    for i := 0 to |statements|
      invariant ValidForest(blocks) && fresh(ForestRepr(blocks))
      invariant ForestView(blocks) == ExtractNested(statements[..i])
    {
      NestedNext(statements, i);
      blocks := AddStmt(blocks, statements[i]);
    }
    assert statements[..|statements|] == statements;
  }

  /** An if-statement appends its chain, any other statement nothing. */
  method AddStmt(blocks: seq<BlockNode>, s: Stmt) returns (more: seq<BlockNode>)
    requires ValidForest(blocks)
    ensures ValidForest(more) && fresh(ForestRepr(more) - ForestRepr(blocks))
    ensures ForestView(more) == old(ForestView(blocks)) + ExtractStmt(s)
    decreases s, 3
  {
    ghost var before := ForestView(blocks);
    more := blocks;
    if s.IfStmt? {
      var chain := BuildChain(s, If);
      assert ForestView(blocks) == before;
      more := Append(blocks, chain);
    }
  }

  method BuildChain(s: Stmt, kind: Kind) returns (blocks: seq<BlockNode>)
    requires s.IfStmt?
    ensures ValidForest(blocks) && fresh(ForestRepr(blocks))
    ensures ForestView(blocks) == ExtractChain(s, kind)
    decreases s, 2
  {
    var children := BuildBody(s.thenPart);
    var first := new BlockNode(kind, s.condition, s.start, s.thenPart.start, s.thenPart.end, children);
    blocks := [first];
    assert ForestView(blocks) == [ExtractIf(s, kind)];
    if s.elsePart.Some? {
      var others := BuildElse(s.elsePart.value);
      blocks := Append(blocks, others);
    }
  }

  method BuildBody(s: Stmt) returns (blocks: seq<BlockNode>)
    ensures ValidForest(blocks) && fresh(ForestRepr(blocks))
    ensures ForestView(blocks) == ExtractBody(s)
    decreases s, 1
  {
    if s.BlockStmt? {
      blocks := BuildNested(s.statements);
    } else {
      blocks := [];
    }
  }

  method BuildElse(s: Stmt) returns (blocks: seq<BlockNode>)
    ensures ValidForest(blocks) && fresh(ForestRepr(blocks))
    ensures ForestView(blocks) == ExtractElse(s)
    decreases s, 3
  {
    if s.IfStmt? {
      blocks := BuildChain(s, ElseIf);
    } else {
      var children := BuildBody(s);
      var block := new BlockNode(Else, "", s.start, s.start, s.end, children);
      blocks := [block];
    }
  }

  /** Appending one list of trees to another keeps them apart. */
  method Append(a: seq<BlockNode>, b: seq<BlockNode>) returns (blocks: seq<BlockNode>)
    requires ValidForest(a) && ValidForest(b) && ForestRepr(a) !! ForestRepr(b)
    ensures blocks == a + b && ValidForest(blocks)
    ensures ForestRepr(blocks) == ForestRepr(a) + ForestRepr(b)
    ensures ForestView(blocks) == ForestView(a) + ForestView(b)
  {
    blocks := a + b;
    ReprConcat(a, b);
  }

  lemma ReprConcat(a: seq<BlockNode>, b: seq<BlockNode>)
    requires Apart(a) && Apart(b) && ForestRepr(a) !! ForestRepr(b)
    ensures Apart(a + b)
    ensures ForestRepr(a + b) == ForestRepr(a) + ForestRepr(b)
  {
    var c := a + b;
    forall i, n | 0 <= i < |a| && n in a[i].repr ensures n in ForestRepr(a) && n in ForestRepr(c) {
      assert c[i] == a[i];
    }
    forall i, n | 0 <= i < |b| && n in b[i].repr ensures n in ForestRepr(b) && n in ForestRepr(c) {
      assert c[|a| + i] == b[i];
    }
    forall i, j | 0 <= i < j < |c| ensures c[i].repr !! c[j].repr {
      if i < |a| <= j {
        assert a[i].repr <= ForestRepr(a) && b[j - |a|].repr <= ForestRepr(b);
      } else if i >= |a| {
        assert b[i - |a|].repr !! b[j - |a|].repr;
      }
    }
    forall n | n in ForestRepr(c) ensures n in ForestRepr(a) + ForestRepr(b) {
      var i :| 0 <= i < |c| && n in c[i].repr;
      if i >= |a| {
        assert n in b[i - |a|].repr;
      }
    }
  }

  // ---------------------------------------------------------------- line spans

  /** The statement's tokens lie on lines lo..hi and every part of it is laid out in source order: lines never
      decrease from one token to the next. */
  predicate Laid(s: Stmt, lo: int, hi: int)
    decreases s, 1
  {
    && lo <= s.start <= s.end <= hi
    && match s
       case Simple(_, _) => true
       case BlockStmt(start, end, statements) => LaidInOrder(statements, start, end)
       case IfStmt(start, end, _, thenPart, elsePart) =>
         && Laid(thenPart, start, end)
         && (elsePart.Some? ==> Laid(elsePart.value, thenPart.end, end))
  }

  predicate LaidInOrder(statements: seq<Stmt>, lo: int, hi: int)
    decreases statements, 0
  {
    if statements == [] then lo <= hi
    else Laid(statements[0], lo, hi) && LaidInOrder(statements[1..], statements[0].end, hi)
  }

  predicate LaidFile(subs: seq<SubDecl>) {
    && (forall i :: 0 <= i < |subs| ==>
                      && subs[i].body.Body?
                      && LaidInOrder(subs[i].body.statements, subs[i].body.start, subs[i].body.end))
    && (forall i, j :: 0 <= i < j < |subs| ==> subs[i].body.end <= subs[j].body.start)
  }

  /** A forest that fits between two lines. */
  predicate Fits(bs: seq<Block>, lo: int, hi: int) {
    && ForestNested(bs)
    && forall i :: 0 <= i < |bs| ==> lo <= bs[i].openBrace && bs[i].closeBrace <= hi
  }

  lemma FitsConcat(a: seq<Block>, b: seq<Block>, lo: int, mid: int, hi: int)
    requires Fits(a, lo, mid) && Fits(b, mid, hi) && lo <= mid <= hi
    ensures Fits(a + b, lo, hi)
  {
    var c := a + b;
    forall i | 0 <= i < |c| ensures WellNested(c[i]) && lo <= c[i].openBrace && c[i].closeBrace <= hi {
      if i >= |a| {
        assert c[i] == b[i - |a|];
      }
    }
    forall i, j | 0 <= i < j < |c| ensures c[i].closeBrace <= c[j].openBrace {
      if i < |a| && j >= |a| {
        assert c[j] == b[j - |a|];
      }
    }
  }

  lemma {:induction false} LaidBounds(statements: seq<Stmt>, lo: int, hi: int)
    requires LaidInOrder(statements, lo, hi)
    ensures lo <= hi
  {
  }

  lemma {:induction false} NestedFits(statements: seq<Stmt>, lo: int, hi: int)
    requires LaidInOrder(statements, lo, hi)
    ensures Fits(ExtractNested(statements), lo, hi)
    decreases statements, 0
  {
    if statements != [] {
      var s := statements[0];
      StmtFits(s, lo, hi);
      NestedFits(statements[1..], s.end, hi);
      FitsConcat(ExtractStmt(s), ExtractNested(statements[1..]), lo, s.end, hi);
    }
  }

  lemma {:induction false} StmtFits(s: Stmt, lo: int, hi: int)
    requires Laid(s, lo, hi)
    ensures Fits(ExtractStmt(s), lo, s.end)
    decreases s, 3
  {
    if s.IfStmt? {
      ChainFits(s, If, lo, hi);
    }
  }

  lemma {:induction false} ChainFits(s: Stmt, kind: Kind, lo: int, hi: int)
    requires s.IfStmt? && Laid(s, lo, hi)
    ensures Fits(ExtractChain(s, kind), lo, s.end)
    decreases s, 2
  {
    BodyFits(s.thenPart, s.start, s.end);
    var first := [ExtractIf(s, kind)];
    assert Fits(first, lo, s.thenPart.end);
    if s.elsePart.Some? {
      ElseFits(s.elsePart.value, s.thenPart.end, s.end);
      FitsConcat(first, ExtractElse(s.elsePart.value), lo, s.thenPart.end, s.end);
    } else {
      assert first + [] == first;
    }
  }

  lemma {:induction false} BodyFits(s: Stmt, lo: int, hi: int)
    requires Laid(s, lo, hi)
    ensures Fits(ExtractBody(s), s.start, s.end)
    decreases s, 1
  {
    if s.BlockStmt? {
      NestedFits(s.statements, s.start, s.end);
    }
  }

  lemma {:induction false} ElseFits(s: Stmt, lo: int, hi: int)
    requires Laid(s, lo, hi)
    ensures Fits(ExtractElse(s), lo, hi)
    decreases s, 3
  {
    if s.IfStmt? {
      ChainFits(s, ElseIf, lo, hi);
    } else {
      BodyFits(s, lo, hi);
    }
  }

  /** Extraction preserves nesting: ordered, nested line spans give a well-nested forest. */
  lemma ExtractionNests(subs: seq<SubDecl>)
    requires LaidFile(subs)
    ensures ForestNested(ExtractFile(subs))
  {
    forall i | 0 <= i < |subs| ensures WellNested(ExtractFile(subs)[i]) {
      var body := subs[i].body;
      NestedFits(body.statements, body.start, body.end);
      assert body.start <= body.end by { LaidBounds(body.statements, body.start, body.end); }
    }
  }

  lemma {:induction false} ExtractionFresh(statements: seq<Stmt>, p: Path)
    requires InForest(ExtractNested(statements), p)
    ensures !ForestAt(ExtractNested(statements), p).entered
    decreases |p|, statements, 0
  {
    var s := statements[0];
    var n := |ExtractStmt(s)|;
    if p[0] < n {
      ChainFresh(s, If, p);
    } else {
      ShiftPath(ExtractStmt(s), ExtractNested(statements[1..]), p);
      ExtractionFresh(statements[1..], [p[0] - n] + p[1..]);
    }
  }

  lemma {:induction false} ChainFresh(s: Stmt, kind: Kind, p: Path)
    requires s.IfStmt? && InForest(ExtractChain(s, kind), p)
    ensures !ForestAt(ExtractChain(s, kind), p).entered
    decreases |p|, s, 1
  {
    if p[0] == 0 {
      BodyFresh(s.thenPart, ExtractIf(s, kind), p[1..]);
    } else {
      var e := s.elsePart.value;
      var q := [p[0] - 1] + p[1..];
      ShiftPath([ExtractIf(s, kind)], ExtractElse(e), p);
      if e.IfStmt? {
        ChainFresh(e, ElseIf, q);
      } else {
        BodyFresh(e, ExtractElse(e)[0], q[1..]);
      }
    }
  }

  lemma {:induction false} BodyFresh(s: Stmt, b: Block, p: Path)
    requires !b.entered && b.children == ExtractBody(s) && Has(b, p)
    ensures !At(b, p).entered
    decreases |p|, s, 0
  {
    if p != [] {
      assert s.BlockStmt? by {
        assert p[0] < |b.children|;
      }
      ExtractionFresh(s.statements, p);
    }
  }

  /** A path past the trees of `a` leads into `b`. */
  lemma ShiftPath(a: seq<Block>, b: seq<Block>, p: Path)
    requires InForest(a + b, p)
    ensures p[0] < |a| ==> InForest(a, p) && ForestAt(a + b, p) == ForestAt(a, p)
    ensures p[0] >= |a| ==>
              var q := [p[0] - |a|] + p[1..];
              q[1..] == p[1..] && InForest(b, q) && ForestAt(a + b, p) == ForestAt(b, q)
  {
    if p[0] >= |a| {
      var q := [p[0] - |a|] + p[1..];
      assert q[1..] == p[1..];
      assert (a + b)[p[0]] == b[p[0] - |a|];
    }
  }

  /** A freshly analysed file has no block entered. */
  lemma FileFresh(subs: seq<SubDecl>)
    ensures Fresh(ExtractFile(subs))
  {
    forall p | InForest(ExtractFile(subs), p) ensures !ForestAt(ExtractFile(subs), p).entered {
      if p[1..] != [] {
        assert p[1..][0] < |ExtractSub(subs[p[0]]).children|;
        ExtractionFresh(subs[p[0]].body.statements, p[1..]);
      }
    }
  }

  // ---------------------------------------------------------------- shape and size of what is extracted

  /** The branches of an if-chain, counted along the source: the if, each else-if, a final else. */
  function Branches(s: Stmt): nat
    requires s.IfStmt?
  {
    1 + match s.elsePart
        case None => 0
        case Some(e) => if e.IfStmt? then Branches(e) else 1
  }

  predicate EndsInElse(s: Stmt)
    requires s.IfStmt?
  {
    match s.elsePart
    case None => false
    case Some(e) => if e.IfStmt? then EndsInElse(e) else true
  }

  /** A chain flattens to its first kind, then else-ifs, then an else exactly when the source has one. */
  lemma {:induction false} ChainShape(s: Stmt, kind: Kind)
    requires s.IfStmt?
    ensures var chain := ExtractChain(s, kind);
            && |chain| == Branches(s)
            && chain[0].kind == kind
            && (forall i :: 1 <= i < |chain| ==>
                              chain[i].kind == if i == |chain| - 1 && EndsInElse(s) then Else else ElseIf)
    decreases s
  {
    if s.elsePart.Some? && s.elsePart.value.IfStmt? {
      ChainShape(s.elsePart.value, ElseIf);
      var chain, rest := ExtractChain(s, kind), ExtractChain(s.elsePart.value, ElseIf);
      forall i | 1 <= i < |chain| ensures chain[i] == rest[i - 1] {
      }
    }
  }

  /** The statement that opens branch i of a chain: an if for every branch but a final else. */
  function BranchAt(s: Stmt, i: nat): Option<Stmt>
    requires s.IfStmt?
    decreases i
  {
    if i == 0 then Some(s)
    else
      match s.elsePart
      case None => None
      case Some(e) => if e.IfStmt? then BranchAt(e, i - 1) else if i == 1 then Some(e) else None
  }

  predicate OpenedBy(b: Block, s: Stmt) {
    && b.headerLine == s.start
    && (if s.IfStmt? then
          b.name == s.condition && b.openBrace == s.thenPart.start && b.closeBrace == s.thenPart.end
          && b.children == ExtractBody(s.thenPart)
        else b.name == "" && b.openBrace == s.start && b.closeBrace == s.end && b.children == ExtractBody(s))
  }

  /** Branches come out in source order, each with its own condition, header and braces. */
  lemma {:induction false} ChainInSourceOrder(s: Stmt, kind: Kind, i: nat)
    requires s.IfStmt?
    ensures i < |ExtractChain(s, kind)| <==> BranchAt(s, i).Some?
    ensures i < |ExtractChain(s, kind)| ==> OpenedBy(ExtractChain(s, kind)[i], BranchAt(s, i).value)
    decreases i
  {
    if i > 0 && s.elsePart.Some? {
      var e := s.elsePart.value;
      if e.IfStmt? {
        ChainInSourceOrder(e, ElseIf, i - 1);
      }
      assert ExtractChain(s, kind) == [ExtractIf(s, kind)] + ExtractElse(e);
    }
  }

  /** Branches of all the chains reached from a statement list: those of its own if-statements and, through
      their braced branches, of the chains nested in them. */
  function ReachedBranches(statements: seq<Stmt>): nat
    decreases statements, 0
  {
    if statements == [] then 0
    else (if statements[0].IfStmt? then ReachedFrom(statements[0]) else 0) + ReachedBranches(statements[1..])
  }

  function ReachedFrom(s: Stmt): nat
    decreases s, 2
  {
    match s
    case Simple(_, _) => 1
    case BlockStmt(_, _, statements) => 1 + ReachedBranches(statements)
    case IfStmt(_, _, _, thenPart, elsePart) =>
      1 + (if thenPart.BlockStmt? then ReachedBranches(thenPart.statements) else 0)
        + (if elsePart.Some? then ReachedFrom(elsePart.value) else 0)
  }

  lemma {:induction false} AllOfConcat(a: seq<Block>, b: seq<Block>)
    ensures AllOf(a + b) == AllOf(a) + AllOf(b)
    decreases |a|
  {
    if a == [] {
      assert a + b == b;
    } else {
      assert (a + b)[1..] == a[1..] + b;
      AllOfConcat(a[1..], b);
    }
  }

  lemma {:induction false} NestedCount(statements: seq<Stmt>)
    ensures |AllOf(ExtractNested(statements))| == ReachedBranches(statements)
    decreases statements, 0
  {
    if statements != [] {
      AllOfConcat(ExtractStmt(statements[0]), ExtractNested(statements[1..]));
      NestedCount(statements[1..]);
      if statements[0].IfStmt? {
        ChainCount(statements[0], If);
      }
    }
  }

  lemma {:induction false} ChainCount(s: Stmt, kind: Kind)
    requires s.IfStmt?
    ensures |AllOf(ExtractChain(s, kind))| == ReachedFrom(s)
    decreases s, 2
  {
    var first := [ExtractIf(s, kind)];
    assert first[1..] == [] && AllBlocks(first[0]) == [first[0]] + AllOf(ExtractBody(s.thenPart));
    assert |AllOf(first)| == 1 + |AllOf(ExtractBody(s.thenPart))|;
    if s.thenPart.BlockStmt? {
      NestedCount(s.thenPart.statements);
    }
    if s.elsePart.Some? {
      var e := s.elsePart.value;
      AllOfConcat(first, ExtractElse(e));
      assert ExtractChain(s, kind) == first + ExtractElse(e);
      if e.IfStmt? {
        ChainCount(e, ElseIf);
      } else {
        assert AllOf(ExtractElse(e)) == AllBlocks(ExtractElse(e)[0]) + AllOf([]);
        if e.BlockStmt? {
          NestedCount(e.statements);
        }
      }
    } else {
      assert ExtractChain(s, kind) == first;
    }
  }

  function FileBranches(subs: seq<SubDecl>): nat {
    if subs == [] then 0
    else (if subs[0].body.Body? then ReachedBranches(subs[0].body.statements) else 0) + FileBranches(subs[1..])
  }

  /** The flattened block count is the number of subs plus the branches of all chains reached. */
  lemma {:induction false} ExtractionCount(subs: seq<SubDecl>)
    ensures |AllOf(ExtractFile(subs))| == |subs| + FileBranches(subs)
    decreases |subs|
  {
    if subs != [] {
      assert ExtractFile(subs)[1..] == ExtractFile(subs[1..]);
      ExtractionCount(subs[1..]);
      var b := ExtractFile(subs)[0];
      assert b == ExtractSub(subs[0]) && AllBlocks(b) == [b] + AllOf(b.children);
      if subs[0].body.Body? {
        NestedCount(subs[0].body.statements);
      }
    }
  }

  // ---------------------------------------------------------------- the subs of a flattened file

  /** The blocks of kind Sub in a list, in order. */
  function SubsOf(flat: seq<Block>): seq<Block> {
    if flat == [] then []
    else (if flat[0].kind == Sub then [flat[0]] else []) + SubsOf(flat[1..])
  }

  lemma {:induction false} SubsOfConcat(a: seq<Block>, b: seq<Block>)
    ensures SubsOf(a + b) == SubsOf(a) + SubsOf(b)
    decreases |a|
  {
    if a == [] {
      assert a + b == b;
    } else {
      assert (a + b)[1..] == a[1..] + b;
      SubsOfConcat(a[1..], b);
    }
  }

  lemma {:induction false} NestedHasNoSubs(statements: seq<Stmt>)
    ensures SubsOf(AllOf(ExtractNested(statements))) == []
    decreases statements, 0
  {
    if statements != [] {
      AllOfConcat(ExtractStmt(statements[0]), ExtractNested(statements[1..]));
      SubsOfConcat(AllOf(ExtractStmt(statements[0])), AllOf(ExtractNested(statements[1..])));
      NestedHasNoSubs(statements[1..]);
      if statements[0].IfStmt? {
        ChainHasNoSubs(statements[0], If);
      }
    }
  }

  lemma {:induction false} ChainHasNoSubs(s: Stmt, kind: Kind)
    requires s.IfStmt? && kind != Sub
    ensures SubsOf(AllOf(ExtractChain(s, kind))) == []
    decreases s, 2
  {
    BranchHasNoSubs(ExtractIf(s, kind), s.thenPart);
    var first := [ExtractIf(s, kind)];
    if s.elsePart.Some? {
      var e := s.elsePart.value;
      AllOfConcat(first, ExtractElse(e));
      SubsOfConcat(AllOf(first), AllOf(ExtractElse(e)));
      if e.IfStmt? {
        ChainHasNoSubs(e, ElseIf);
      } else {
        BranchHasNoSubs(ExtractElse(e)[0], e);
      }
    } else {
      assert ExtractChain(s, kind) == first;
    }
  }

  lemma {:induction false} BranchHasNoSubs(b: Block, s: Stmt)
    requires b.kind != Sub && b.children == ExtractBody(s)
    ensures SubsOf(AllOf([b])) == []
    decreases s, 1
  {
    if s.BlockStmt? {
      NestedHasNoSubs(s.statements);
    }
    assert [b][1..] == [] && AllOf([b]) == AllBlocks(b) + AllOf([]);
    assert AllBlocks(b) == [b] + AllOf(b.children);
    SubsOfConcat([b], AllOf(b.children));
    assert SubsOf([b]) == [];
    assert AllOf([b]) == AllBlocks(b);
  }

  /** In the flattened list of a file the blocks of kind Sub are its subs, in source order, each with its name, header
      line and braces. */
  lemma {:induction false} FlattenedSubs(subs: seq<SubDecl>)
    ensures var flat := SubsOf(AllOf(ExtractFile(subs)));
            && |flat| == |subs|
            && forall i :: 0 <= i < |subs| ==>
                             && flat[i].name == subs[i].name && flat[i].headerLine == subs[i].start
                             && (subs[i].body.Body? ==>
                                   flat[i].openBrace == subs[i].body.start && flat[i].closeBrace == subs[i].body.end)
    decreases |subs|
  {
    if subs != [] {
      var b := ExtractFile(subs)[0];
      assert ExtractFile(subs)[1..] == ExtractFile(subs[1..]);
      FlattenedSubs(subs[1..]);
      assert AllBlocks(b) == [b] + AllOf(b.children);
      SubsOfConcat(AllBlocks(b), AllOf(ExtractFile(subs[1..])));
      SubsOfConcat([b], AllOf(b.children));
      if subs[0].body.Body? {
        NestedHasNoSubs(subs[0].body.statements);
      }
      assert [b][1..] == [] && SubsOf([b]) == [b];
      assert SubsOf(AllOf(ExtractFile(subs))) == [b] + SubsOf(AllOf(ExtractFile(subs[1..])));
    }
  }
}
