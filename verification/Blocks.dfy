/** Block coverage over values: the block tree of `pkg/coverage`, the three independent recursions over it
    (the marker, the deepest-block finder and the overwriting line filler) and the proofs that they agree.

    A block is named by its path: the child index to take at each level.  Paths, unlike block values, tell two
    equal-looking blocks apart, as the pointers of the original do. */
module Blocks {
  import opened Common

  datatype Kind = Sub | If | ElseIf | Else

  datatype Block = Block(
    kind: Kind,
    name: string,
    headerLine: int,
    openBrace: int,
    closeBrace: int,
    entered: bool,
    children: seq<Block>)

  type Path = seq<nat>

  predicate LineInBlock(b: Block, line: int) {
    b.openBrace <= line <= b.closeBrace
  }

  predicate BetweenBraces(b: Block, line: int) {
    b.openBrace < line < b.closeBrace
  }

  // ---------------------------------------------------------------- naming blocks

  predicate Has(b: Block, p: Path)
    decreases |p|
  {
    p == [] || (p[0] < |b.children| && Has(b.children[p[0]], p[1..]))
  }

  function At(b: Block, p: Path): Block
    requires Has(b, p)
    decreases |p|
  {
    if p == [] then b else At(b.children[p[0]], p[1..])
  }

  /** Paths into a forest are never empty: the first index picks the tree. */
  predicate InForest(bs: seq<Block>, p: Path) {
    p != [] && p[0] < |bs| && Has(bs[p[0]], p[1..])
  }

  function ForestAt(bs: seq<Block>, p: Path): Block
    requires InForest(bs, p)
  {
    At(bs[p[0]], p[1..])
  }

  lemma {:induction false} AtExtends(b: Block, p: Path, q: Path)
    requires Has(b, p)
    ensures Has(b, p + q) <==> Has(At(b, p), q)
    ensures Has(b, p + q) ==> At(b, p + q) == At(At(b, p), q)
    decreases |p|
  {
    if p == [] {
      assert p + q == q;
    } else {
      assert (p + q)[1..] == p[1..] + q;
      AtExtends(b.children[p[0]], p[1..], q);
    }
  }

  lemma ForestAtExtends(bs: seq<Block>, p: Path, q: Path)
    requires InForest(bs, p)
    ensures InForest(bs, p + q) <==> Has(ForestAt(bs, p), q)
    ensures InForest(bs, p + q) ==> ForestAt(bs, p + q) == At(ForestAt(bs, p), q)
  {
    assert (p + q)[1..] == p[1..] + q;
    AtExtends(bs[p[0]], p[1..], q);
  }

  // ---------------------------------------------------------------- nesting

  /** Siblings come in source order; `} else {` lets two neighbours share one line. */
  predicate Ordered(bs: seq<Block>) {
    forall i, j :: 0 <= i < j < |bs| ==> bs[i].closeBrace <= bs[j].openBrace
  }

  predicate WellNested(b: Block) {
    && b.openBrace <= b.closeBrace
    && Ordered(b.children)
    && forall i :: 0 <= i < |b.children| ==>
                     && b.openBrace <= b.children[i].openBrace
                     && b.children[i].closeBrace <= b.closeBrace
                     && WellNested(b.children[i])
  }

  predicate ForestNested(bs: seq<Block>) {
    && Ordered(bs)
    && forall i :: 0 <= i < |bs| ==> WellNested(bs[i])
  }

  lemma {:induction false} NestedAt(b: Block, p: Path)
    requires WellNested(b) && Has(b, p)
    ensures WellNested(At(b, p))
    ensures b.openBrace <= At(b, p).openBrace && At(b, p).closeBrace <= b.closeBrace
    decreases |p|
  {
    if p != [] {
      NestedAt(b.children[p[0]], p[1..]);
    }
  }

  // ---------------------------------------------------------------- the marker

  /** A traced line between the block's own braces and in none of its children, brace lines included. */
  predicate OwnTrace(b: Block, traced: set<int>) {
    exists line :: line in traced && OwnLine(b, line)
  }

  predicate OwnLine(b: Block, line: int) {
    && BetweenBraces(b, line)
    && forall i :: 0 <= i < |b.children| ==> !LineInBlock(b.children[i], line)
  }

  predicate AnyEntered(bs: seq<Block>) {
    exists i :: 0 <= i < |bs| && bs[i].entered
  }

  /** What one pass of the marker leaves behind; marks already set stay set. */
  function Mark(b: Block, traced: set<int>): Block {
    var children := seq(|b.children|, i requires 0 <= i < |b.children| => Mark(b.children[i], traced));
    b.(children := children, entered := b.entered || OwnTrace(b, traced) || AnyEntered(children))
  }

  function MarkForest(bs: seq<Block>, traced: set<int>): seq<Block> {
    seq(|bs|, i requires 0 <= i < |bs| => Mark(bs[i], traced))
  }

  /** A reason for a block to be entered that does not come from its children. */
  predicate Cause(b: Block, traced: set<int>) {
    b.entered || OwnTrace(b, traced)
  }

  lemma {:induction false} MarkAt(b: Block, traced: set<int>, p: Path)
    ensures Has(Mark(b, traced), p) <==> Has(b, p)
    ensures Has(b, p) ==> At(Mark(b, traced), p) == Mark(At(b, p), traced)
    decreases |p|
  {
    if p != [] && p[0] < |b.children| {
      MarkAt(b.children[p[0]], traced, p[1..]);
    }
  }

  lemma {:induction false} CauseMarks(b: Block, traced: set<int>, q: Path)
    requires Has(b, q) && Cause(At(b, q), traced)
    ensures Mark(b, traced).entered
    decreases |q|
  {
    if q != [] {
      CauseMarks(b.children[q[0]], traced, q[1..]);
      assert Mark(b, traced).children[q[0]].entered;
    }
  }

  lemma {:induction false} MarkHasCause(b: Block, traced: set<int>) returns (q: Path)
    requires Mark(b, traced).entered
    ensures Has(b, q) && Cause(At(b, q), traced)
    decreases b
  {
    if Cause(b, traced) {
      q := [];
    } else {
      var i :| 0 <= i < |b.children| && Mark(b, traced).children[i].entered;
      var rest := MarkHasCause(b.children[i], traced);
      q := [i] + rest;
      assert q[1..] == rest;
    }
  }

  /** For every forest and every prior marking: a block ends up entered exactly when it or a descendant was
      already entered or has a traced line of its own. */
  lemma MarkedExactly(bs: seq<Block>, traced: set<int>, p: Path)
    requires InForest(bs, p)
    ensures InForest(MarkForest(bs, traced), p)
    ensures ForestAt(MarkForest(bs, traced), p).entered
            <==> exists q :: p <= q && InForest(bs, q) && Cause(ForestAt(bs, q), traced)
  {
    MarkAt(bs[p[0]], traced, p[1..]);
    var b := ForestAt(bs, p);
    assert ForestAt(MarkForest(bs, traced), p) == Mark(b, traced);
    if Mark(b, traced).entered {
      var q := MarkHasCause(b, traced);
      ForestAtExtends(bs, p, q);
      assert p <= p + q && InForest(bs, p + q) && Cause(ForestAt(bs, p + q), traced);
    }
    forall q | p <= q && InForest(bs, q) && Cause(ForestAt(bs, q), traced)
      ensures Mark(b, traced).entered
    {
      assert q == p + q[|p|..];
      ForestAtExtends(bs, p, q[|p|..]);
      CauseMarks(b, traced, q[|p|..]);
    }
  }

  lemma MarkKeepsRange(b: Block, traced: set<int>)
    ensures Mark(b, traced).openBrace == b.openBrace && Mark(b, traced).closeBrace == b.closeBrace
  {
  }

  /** Own traces depend on line ranges alone, not on marks. */
  lemma SameRangesSameOwnTrace(a: Block, b: Block, traced: set<int>)
    requires a.openBrace == b.openBrace && a.closeBrace == b.closeBrace
    requires |a.children| == |b.children|
    requires forall i :: 0 <= i < |a.children| ==>
                           && a.children[i].openBrace == b.children[i].openBrace
                           && a.children[i].closeBrace == b.children[i].closeBrace
    ensures OwnTrace(a, traced) == OwnTrace(b, traced)
  {
    forall line ensures OwnLine(a, line) == OwnLine(b, line) {
      assert forall i :: 0 <= i < |a.children| ==>
                           LineInBlock(a.children[i], line) == LineInBlock(b.children[i], line);
    }
  }

  /** Marking the children changes no own traces of the parent. */
  lemma MarkedSameOwnTrace(b: Block, marked: set<int>, traced: set<int>)
    ensures OwnTrace(b.(children := Mark(b, marked).children), traced) == OwnTrace(b, traced)
  {
    var c := b.(children := Mark(b, marked).children);
    forall i | 0 <= i < |b.children|
      ensures c.children[i].openBrace == b.children[i].openBrace
      ensures c.children[i].closeBrace == b.children[i].closeBrace
    {
      assert c.children[i] == Mark(b.children[i], marked);
      MarkKeepsRange(b.children[i], marked);
    }
    SameRangesSameOwnTrace(c, b, traced);
  }

  /** Marking with the lines of two log parts one after the other is marking once with all of them, for every
      tree and every prior marking. */
  lemma {:induction false} MarkIncremental(b: Block, first: set<int>, second: set<int>)
    ensures Mark(Mark(b, first), second) == Mark(b, first + second)
    decreases b
  {
    var once := Mark(b, first);
    var twice := Mark(once, second);
    var whole := Mark(b, first + second);
    forall i | 0 <= i < |b.children|
      ensures twice.children[i] == whole.children[i]
      ensures once.children[i].entered ==> twice.children[i].entered
    {
      MarkIncremental(b.children[i], first, second);
    }
    assert twice.children == whole.children;
    MarkedSameOwnTrace(b, first, second);
    SameRangesSameOwnTrace(once, b.(children := once.children), second);
    assert OwnTrace(b, first + second) == (OwnTrace(b, first) || OwnTrace(b, second)) by {
      if OwnTrace(b, first) {
        var line :| line in first && OwnLine(b, line);
        assert line in first + second;
      }
      if OwnTrace(b, second) {
        var line :| line in second && OwnLine(b, line);
        assert line in first + second;
      }
    }
    if AnyEntered(once.children) {
      var i :| 0 <= i < |once.children| && once.children[i].entered;
      assert twice.children[i].entered;
    }
  }

  lemma MarkForestIncremental(bs: seq<Block>, first: set<int>, second: set<int>)
    ensures MarkForest(MarkForest(bs, first), second) == MarkForest(bs, first + second)
  {
    forall i | 0 <= i < |bs|
      ensures MarkForest(MarkForest(bs, first), second)[i] == MarkForest(bs, first + second)[i]
    {
      MarkIncremental(bs[i], first, second);
    }
  }

  // ---------------------------------------------------------------- the finder

  /** The deepest block containing the line: the first child that contains it is searched before the block
      itself is answered. */
  function Find(b: Block, line: int): Option<Path>
    decreases b, 0
  {
    if !LineInBlock(b, line) then None
    else
      var inChild := FindFrom(b.children, 0, line);
      if inChild.Some? then inChild else Some([])
  }

  function FindFrom(bs: seq<Block>, start: nat, line: int): Option<Path>
    requires start <= |bs|
    decreases bs, |bs| - start
  {
    if start == |bs| then None
    else
      var here := Find(bs[start], line);
      if here.Some? then Some([start] + here.value) else FindFrom(bs, start + 1, line)
  }

  function FindBlockAtLine(bs: seq<Block>, line: int): Option<Path> {
    FindFrom(bs, 0, line)
  }

  /** The search among siblings stops at the first one that contains the line. */
  lemma {:induction false} FindFromFirst(bs: seq<Block>, start: nat, line: int, k: nat)
    requires start <= k < |bs|
    requires LineInBlock(bs[k], line)
    requires forall i :: start <= i < k ==> !LineInBlock(bs[i], line)
    ensures Find(bs[k], line).Some?
    ensures FindFrom(bs, start, line) == Some([k] + Find(bs[k], line).value)
    decreases k - start
  {
    if start < k {
      FindFromFirst(bs, start + 1, line, k);
    }
  }

  lemma {:induction false} FindFromNone(bs: seq<Block>, start: nat, line: int)
    requires start <= |bs|
    requires forall i :: start <= i < |bs| ==> !LineInBlock(bs[i], line)
    ensures FindFrom(bs, start, line) == None
    decreases |bs| - start
  {
    if start < |bs| {
      FindFromNone(bs, start + 1, line);
    }
  }

  /** What the finder answers, when it answers, is a block of the forest that contains the line while none of
      its children does. */
  lemma {:induction false} FindFromSound(bs: seq<Block>, start: nat, line: int)
    requires start <= |bs|
    ensures var r := FindFrom(bs, start, line);
            r.Some? ==>
              && InForest(bs, r.value)
              && LineInBlock(ForestAt(bs, r.value), line)
              && forall i :: 0 <= i < |ForestAt(bs, r.value).children| ==>
                               !LineInBlock(ForestAt(bs, r.value).children[i], line)
    ensures FindFrom(bs, start, line).None? ==> forall i :: start <= i < |bs| ==> !LineInBlock(bs[i], line)
    decreases bs, |bs| - start
  {
    if start < |bs| {
      var here := Find(bs[start], line);
      if here.Some? {
        FindFromSound(bs[start].children, 0, line);
        assert ([start] + here.value)[1..] == here.value;
      } else {
        FindFromSound(bs, start + 1, line);
      }
    }
  }

  /** In a well-nested tree a line that belongs to a block alone is found there and nowhere else. */
  lemma {:induction false} OwnLineIsFound(b: Block, line: int, q: Path)
    requires WellNested(b) && Has(b, q)
    requires OwnLine(At(b, q), line)
    ensures BetweenBraces(b, line)
    ensures Find(b, line) == Some(q)
    decreases |q|
  {
    NestedAt(b, q);
    if q == [] {
      FindFromNone(b.children, 0, line);
    } else {
      OwnLineIsFound(b.children[q[0]], line, q[1..]);
      FindFromFirst(b.children, 0, line, q[0]);
      assert [q[0]] + q[1..] == q;
    }
  }

  lemma ForestOwnLineIsFound(bs: seq<Block>, line: int, q: Path)
    requires ForestNested(bs) && InForest(bs, q)
    requires OwnLine(ForestAt(bs, q), line)
    ensures FindBlockAtLine(bs, line) == Some(q)
  {
    OwnLineIsFound(bs[q[0]], line, q[1..]);
    FindFromFirst(bs, 0, line, q[0]);
    assert [q[0]] + q[1..] == q;
  }

  // ---------------------------------------------------------------- the marker refines the finder

  /** The line is credited to block p: the finder answers p or a descendant of p, and the line lies strictly
      between the braces of the block found. */
  predicate Credits(bs: seq<Block>, line: int, p: Path) {
    var found := FindBlockAtLine(bs, line);
    && found.Some?
    && p <= found.value
    && InForest(bs, found.value)
    && BetweenBraces(ForestAt(bs, found.value), line)
  }

  ghost predicate Fresh(bs: seq<Block>) {
    forall p :: InForest(bs, p) ==> !ForestAt(bs, p).entered
  }

  /** On every well-nested forest, whatever its prior marks, the marker enters block p exactly when p or a
      descendant was entered before, or some traced line is credited to p through the finder. */
  lemma MarkerRefinesFinder(bs: seq<Block>, traced: set<int>, p: Path)
    requires ForestNested(bs) && InForest(bs, p)
    ensures InForest(MarkForest(bs, traced), p)
    ensures ForestAt(MarkForest(bs, traced), p).entered
            <==> || (exists q :: p <= q && InForest(bs, q) && ForestAt(bs, q).entered)
                 || (exists line :: line in traced && Credits(bs, line, p))
  {
    MarkedExactly(bs, traced, p);
    if q :| p <= q && InForest(bs, q) && OwnTrace(ForestAt(bs, q), traced) {
      var line :| line in traced && OwnLine(ForestAt(bs, q), line);
      ForestOwnLineIsFound(bs, line, q);
      assert Credits(bs, line, p);
    }
    forall line | line in traced && Credits(bs, line, p)
      ensures exists q :: p <= q && InForest(bs, q) && Cause(ForestAt(bs, q), traced)
    {
      FindFromSound(bs, 0, line);
      var q := FindBlockAtLine(bs, line).value;
      assert OwnLine(ForestAt(bs, q), line);
      assert Cause(ForestAt(bs, q), traced);
    }
  }

  /** The form used by the runner, which analyses each file afresh: entered means credited. */
  lemma FreshMarkerRefinesFinder(bs: seq<Block>, traced: set<int>, p: Path)
    requires ForestNested(bs) && Fresh(bs) && InForest(bs, p)
    ensures InForest(MarkForest(bs, traced), p)
    ensures ForestAt(MarkForest(bs, traced), p).entered <==> exists line :: line in traced && Credits(bs, line, p)
  {
    MarkerRefinesFinder(bs, traced, p);
  }

  // ---------------------------------------------------------------- lines shared by two siblings

  predicate SharedHere(bs: seq<Block>, line: int) {
    exists i, j :: 0 <= i < j < |bs| && LineInBlock(bs[i], line) && LineInBlock(bs[j], line)
  }

  predicate SharedIn(b: Block, line: int) {
    || SharedHere(b.children, line)
    || exists i :: 0 <= i < |b.children| && SharedIn(b.children[i], line)
  }

  /** Some two siblings, at any depth, both contain the line. */
  predicate Shared(bs: seq<Block>, line: int) {
    || SharedHere(bs, line)
    || exists i :: 0 <= i < |bs| && SharedIn(bs[i], line)
  }

  /** A line that belongs to one block alone is in the range of exactly the blocks on the way to it, so no
      two siblings share it. */
  lemma {:induction false} OwnLineNotShared(b: Block, line: int, q: Path)
    requires WellNested(b) && Has(b, q)
    requires OwnLine(At(b, q), line)
    ensures BetweenBraces(b, line)
    ensures !SharedIn(b, line)
    decreases |q|
  {
    NestedAt(b, q);
    if q == [] {
      forall i | 0 <= i < |b.children| ensures !SharedIn(b.children[i], line) {
        OutsideNotShared(b.children[i], line);
      }
    } else {
      OwnLineNotShared(b.children[q[0]], line, q[1..]);
      forall i | 0 <= i < |b.children| && i != q[0]
        ensures !LineInBlock(b.children[i], line) && !SharedIn(b.children[i], line)
      {
        OutsideNotShared(b.children[i], line);
      }
    }
  }

  lemma {:induction false} OutsideNotShared(b: Block, line: int)
    requires WellNested(b) && !LineInBlock(b, line)
    ensures !SharedIn(b, line)
    decreases b
  {
    forall i | 0 <= i < |b.children|
      ensures !LineInBlock(b.children[i], line) && !SharedIn(b.children[i], line)
    {
      OutsideNotShared(b.children[i], line);
    }
  }

  /** A line shared by two siblings at any depth credits no block: dropping it changes no mark, whatever the
      prior marks and the other traced lines are. */
  lemma SharedLineCreditsNothing(bs: seq<Block>, traced: set<int>, line: int, p: Path)
    requires ForestNested(bs) && Shared(bs, line) && InForest(bs, p)
    ensures InForest(MarkForest(bs, traced), p) && InForest(MarkForest(bs, traced - {line}), p)
    ensures ForestAt(MarkForest(bs, traced), p).entered == ForestAt(MarkForest(bs, traced - {line}), p).entered
  {
    MarkedExactly(bs, traced, p);
    MarkedExactly(bs, traced - {line}, p);
    forall q | InForest(bs, q)
      ensures Cause(ForestAt(bs, q), traced) == Cause(ForestAt(bs, q), traced - {line})
    {
      var b := ForestAt(bs, q);
      if OwnLine(b, line) {
        OwnLineNotShared(bs[q[0]], line, q[1..]);
        forall i | 0 <= i < |bs| && i != q[0]
          ensures !LineInBlock(bs[i], line) && !SharedIn(bs[i], line)
        {
          OutsideNotShared(bs[i], line);
        }
        assert false;
      }
      if OwnTrace(b, traced) {
        var l :| l in traced && OwnLine(b, l);
        assert l in traced - {line};
      }
    }
  }

  // ---------------------------------------------------------------- flattening and the line filler

  /** The block and all its descendants, in preorder. */
  function AllBlocks(b: Block): seq<Block>
    decreases b, 1
  {
    [b] + AllOf(b.children)
  }

  function AllOf(bs: seq<Block>): seq<Block>
    decreases bs, 0
  {
    if bs == [] then [] else AllBlocks(bs[0]) + AllOf(bs[1..])
  }

  function Lines(b: Block): map<int, bool> {
    map line | b.openBrace <= line <= b.closeBrace && LineInBlock(b, line) :: b.entered
  }

  /** The filler: a block writes all its lines, then its children overwrite theirs. */
  function Fill(b: Block, status: map<int, bool>): map<int, bool>
    decreases b, 1
  {
    FillAll(b.children, status + Lines(b))
  }

  function FillAll(bs: seq<Block>, status: map<int, bool>): map<int, bool>
    decreases bs, 0
  {
    if bs == [] then status else FillAll(bs[1..], Fill(bs[0], status))
  }

  function GetLineStatus(bs: seq<Block>): map<int, bool> {
    FillAll(bs, map[])
  }

  function Lookup(status: map<int, bool>, line: int): Option<bool> {
    if line in status then Some(status[line]) else None
  }

  /** The flag of the last block of a list that contains the line. */
  function LastFlag(flat: seq<Block>, line: int): Option<bool> {
    if flat == [] then None
    else
      var last := flat[|flat| - 1];
      if LineInBlock(last, line) then Some(last.entered) else LastFlag(flat[..|flat| - 1], line)
  }

  function Override(base: Option<bool>, over: Option<bool>): Option<bool> {
    if over.Some? then over else base
  }

  lemma {:induction false} LastFlagConcat(a: seq<Block>, b: seq<Block>, line: int)
    ensures LastFlag(a + b, line) == Override(LastFlag(a, line), LastFlag(b, line))
    decreases |b|
  {
    if b == [] {
      assert a + b == a;
    } else {
      assert (a + b)[..|a + b| - 1] == a + b[..|b| - 1];
      LastFlagConcat(a, b[..|b| - 1], line);
    }
  }

  lemma {:induction false} FillIsLastInPreorder(b: Block, status: map<int, bool>, line: int)
    ensures Lookup(Fill(b, status), line) == Override(Lookup(status, line), LastFlag(AllBlocks(b), line))
    decreases b, 1
  {
    FillAllIsLastInPreorder(b.children, status + Lines(b), line);
    LastFlagConcat([b], AllOf(b.children), line);
    assert [b][..0] == [];
  }

  lemma {:induction false} FillAllIsLastInPreorder(bs: seq<Block>, status: map<int, bool>, line: int)
    ensures Lookup(FillAll(bs, status), line) == Override(Lookup(status, line), LastFlag(AllOf(bs), line))
    decreases bs, 0
  {
    if bs != [] {
      FillIsLastInPreorder(bs[0], status, line);
      FillAllIsLastInPreorder(bs[1..], Fill(bs[0], status), line);
      LastFlagConcat(AllBlocks(bs[0]), AllOf(bs[1..]), line);
    }
  }

  /** For every forest, nested or not: the status of a line is the Entered flag of the last block in preorder
      that contains the line, and lines in no block are absent. */
  lemma LineStatusIsLastInPreorder(bs: seq<Block>, line: int)
    ensures Lookup(GetLineStatus(bs), line) == LastFlag(AllOf(bs), line)
  {
    FillAllIsLastInPreorder(bs, map[], line);
  }

  // ---------------------------------------------------------------- exactly when filler and finder agree

  /** Preorder on paths: p is q or comes before it. */
  predicate NotAfter(p: Path, q: Path) {
    p == [] || (q != [] && (p[0] < q[0] || (p[0] == q[0] && NotAfter(p[1..], q[1..]))))
  }

  /** The last block in preorder that contains the line, by path: the block whose status the filler leaves. */
  function Last(b: Block, line: int): Option<Path>
    decreases b, 1
  {
    var below := LastAmong(b.children, line);
    if below.Some? then below else if LineInBlock(b, line) then Some([]) else None
  }

  function LastAmong(bs: seq<Block>, line: int): Option<Path>
    decreases bs, 0
  {
    if bs == [] then None
    else
      var n := |bs| - 1;
      var last := Last(bs[n], line);
      if last.Some? then Some([n] + last.value) else LastAmong(bs[..n], line)
  }

  /** The path is that of a block containing the line, and no block after it in preorder contains the line. */
  ghost predicate IsLast(bs: seq<Block>, line: int, p: Path) {
    && InForest(bs, p) && LineInBlock(ForestAt(bs, p), line)
    && forall q :: InForest(bs, q) && LineInBlock(ForestAt(bs, q), line) ==> NotAfter(q, p)
  }

  lemma {:induction false} LastIsLast(b: Block, line: int)
    ensures var r := Last(b, line);
            && (r.Some? ==> Has(b, r.value) && LineInBlock(At(b, r.value), line))
            && (forall q :: Has(b, q) && LineInBlock(At(b, q), line) ==> r.Some? && NotAfter(q, r.value))
    decreases b, 1
  {
    LastAmongIsLast(b.children, line);
    var r := Last(b, line);
    forall q | Has(b, q) && LineInBlock(At(b, q), line) ensures r.Some? && NotAfter(q, r.value) {
      if q != [] {
        assert InForest(b.children, q) && ForestAt(b.children, q) == At(b, q);
      }
    }
  }

  /** For every forest, nested or not: the path is that of the last block in preorder containing the line. */
  lemma {:induction false} LastAmongIsLast(bs: seq<Block>, line: int)
    ensures var r := LastAmong(bs, line);
            && (r.Some? ==> IsLast(bs, line, r.value))
            && (r.None? ==> forall q :: InForest(bs, q) ==> !LineInBlock(ForestAt(bs, q), line))
    decreases bs, 0
  {
    if bs != [] {
      var n := |bs| - 1;
      var last := Last(bs[n], line);
      LastIsLast(bs[n], line);
      LastAmongIsLast(bs[..n], line);
      var r := LastAmong(bs, line);
      if last.Some? {
        assert r.value[1..] == last.value;
      }
      forall q | InForest(bs, q) && LineInBlock(ForestAt(bs, q), line) ensures r.Some? && NotAfter(q, r.value) {
        if q[0] < n {
          assert InForest(bs[..n], q) && ForestAt(bs[..n], q) == ForestAt(bs, q);
        } else {
          assert last.Some? && NotAfter(q[1..], last.value);
        }
      }
    }
  }

  lemma {:induction false} FlagOfLast(b: Block, line: int)
    ensures var r := Last(b, line);
            LastFlag(AllBlocks(b), line) == if r.Some? && Has(b, r.value) then Some(At(b, r.value).entered) else None
    decreases b, 1
  {
    FlagOfLastAmong(b.children, line);
    LastAmongIsLast(b.children, line);
    LastFlagConcat([b], AllOf(b.children), line);
    assert [b][..0] == [];
  }

  lemma {:induction false} FlagOfLastAmong(bs: seq<Block>, line: int)
    ensures var r := LastAmong(bs, line);
            LastFlag(AllOf(bs), line)
            == if r.Some? && InForest(bs, r.value) then Some(ForestAt(bs, r.value).entered) else None
    decreases bs, 0
  {
    if bs != [] {
      var n := |bs| - 1;
      FlagOfLast(bs[n], line);
      FlagOfLastAmong(bs[..n], line);
      LastIsLast(bs[n], line);
      LastAmongIsLast(bs[..n], line);
      AllOfAppend(bs[..n], bs[n]);
      assert bs == bs[..n] + [bs[n]];
      LastFlagConcat(AllOf(bs[..n]), AllBlocks(bs[n]), line);
      var r := LastAmong(bs, line);
      if Last(bs[n], line).Some? {
        assert r.value[1..] == Last(bs[n], line).value;
      }
    }
  }

  lemma {:induction false} AllOfAppend(bs: seq<Block>, b: Block)
    ensures AllOf(bs + [b]) == AllOf(bs) + AllBlocks(b)
    decreases |bs|
  {
    if bs == [] {
      assert [b][1..] == [];
    } else {
      assert (bs + [b])[1..] == bs[1..] + [b];
      AllOfAppend(bs[1..], b);
    }
  }

  lemma {:induction false} LastAmongAt(bs: seq<Block>, line: int, k: nat)
    requires ForestNested(bs) && k < |bs| && LineInBlock(bs[k], line)
    requires forall i :: k < i < |bs| ==> !LineInBlock(bs[i], line)
    ensures Last(bs[k], line).Some?
    ensures LastAmong(bs, line) == Some([k] + Last(bs[k], line).value)
    decreases |bs|
  {
    var n := |bs| - 1;
    if k < n {
      NothingOutside(bs[n], line);
      LastAmongAt(bs[..n], line, k);
    }
  }

  lemma {:induction false} LastAmongNone(bs: seq<Block>, line: int)
    requires ForestNested(bs) && forall i :: 0 <= i < |bs| ==> !LineInBlock(bs[i], line)
    ensures LastAmong(bs, line) == None
    decreases |bs|
  {
    if bs != [] {
      NothingOutside(bs[|bs| - 1], line);
      LastAmongNone(bs[..|bs| - 1], line);
    }
  }

  lemma NothingOutside(b: Block, line: int)
    requires WellNested(b) && !LineInBlock(b, line)
    ensures Last(b, line) == None
  {
    LastIsLast(b, line);
    if Last(b, line).Some? {
      NestedAt(b, Last(b, line).value);
    }
  }

  lemma {:induction false} AgreeUnlessShared(b: Block, line: int)
    requires WellNested(b) && LineInBlock(b, line)
    ensures Find(b, line).Some? && Last(b, line).Some?
    ensures Last(b, line) == Find(b, line) <==> !SharedIn(b, line)
    decreases b, 0
  {
    if forall i :: 0 <= i < |b.children| ==> !LineInBlock(b.children[i], line) {
      FindFromNone(b.children, 0, line);
      LastAmongNone(b.children, line);
      forall i | 0 <= i < |b.children| ensures !SharedIn(b.children[i], line) {
        OutsideNotShared(b.children[i], line);
      }
    } else {
      AllAgreeUnlessShared(b.children, line);
    }
  }

  lemma {:induction false} AllAgreeUnlessShared(bs: seq<Block>, line: int)
    requires ForestNested(bs) && exists i :: 0 <= i < |bs| && LineInBlock(bs[i], line)
    ensures FindBlockAtLine(bs, line).Some? && LastAmong(bs, line).Some?
    ensures LastAmong(bs, line) == FindBlockAtLine(bs, line) <==> !Shared(bs, line)
    decreases bs, 1
  {
    var first := FirstWith(bs, line);
    var last := LastWith(bs, line);
    FindFromFirst(bs, 0, line, first);
    LastAmongAt(bs, line, last);
    var found, filled := Find(bs[first], line).value, Last(bs[last], line).value;
    if first == last {
      AgreeUnlessShared(bs[first], line);
      assert ([first] + found)[1..] == found && ([first] + filled)[1..] == filled;
      forall i | 0 <= i < |bs| && i != first ensures !LineInBlock(bs[i], line) && !SharedIn(bs[i], line) {
        OutsideNotShared(bs[i], line);
      }
    } else {
      assert ([first] + found)[0] != ([last] + filled)[0];
      assert SharedHere(bs, line);
    }
  }

  lemma {:induction false} FirstWith(bs: seq<Block>, line: int) returns (k: nat)
    requires exists i :: 0 <= i < |bs| && LineInBlock(bs[i], line)
    ensures k < |bs| && LineInBlock(bs[k], line) && forall i :: 0 <= i < k ==> !LineInBlock(bs[i], line)
  {
    k := 0;
    while !LineInBlock(bs[k], line)
      invariant k < |bs| && forall i :: 0 <= i < k ==> !LineInBlock(bs[i], line)
      decreases |bs| - k
    {
      k := k + 1;
    }
  }

  lemma {:induction false} LastWith(bs: seq<Block>, line: int) returns (k: nat)
    requires exists i :: 0 <= i < |bs| && LineInBlock(bs[i], line)
    ensures k < |bs| && LineInBlock(bs[k], line) && forall i :: k < i < |bs| ==> !LineInBlock(bs[i], line)
  {
    k := |bs| - 1;
    while !LineInBlock(bs[k], line)
      invariant k < |bs| && forall i :: k < i < |bs| ==> !LineInBlock(bs[i], line)
      decreases k
    {
      k := k - 1;
    }
  }

  /** For every forest: the status of a line is the flag of the block that comes last in preorder. */
  lemma LineStatusIsOfLast(bs: seq<Block>, line: int)
    ensures line in GetLineStatus(bs) <==> LastAmong(bs, line).Some?
    ensures line in GetLineStatus(bs) ==>
              && IsLast(bs, line, LastAmong(bs, line).value)
              && GetLineStatus(bs)[line] == ForestAt(bs, LastAmong(bs, line).value).entered
  {
    LineStatusIsLastInPreorder(bs, line);
    LastAmongIsLast(bs, line);
    FlagOfLastAmong(bs, line);
  }

  /** On every well-nested forest and every line the finder finds: the filler's status is that of the very block
      the finder answers if and only if no two siblings, at any depth, share the line. */
  lemma FillerAgreesExactly(bs: seq<Block>, line: int)
    requires ForestNested(bs) && FindBlockAtLine(bs, line).Some?
    ensures LastAmong(bs, line).Some? && IsLast(bs, line, LastAmong(bs, line).value)
    ensures line in GetLineStatus(bs)
    ensures GetLineStatus(bs)[line] == ForestAt(bs, LastAmong(bs, line).value).entered
    ensures LastAmong(bs, line) == FindBlockAtLine(bs, line) <==> !Shared(bs, line)
  {
    LineStatusIsOfLast(bs, line);
    FindFromSound(bs, 0, line);
    var p := FindBlockAtLine(bs, line).value;
    NestedAt(bs[p[0]], p[1..]);
    assert LineInBlock(bs[p[0]], line);
    AllAgreeUnlessShared(bs, line);
  }

  /** On well-nested forests the filler has a status for exactly the lines the finder finds, and on every line
      not shared by two siblings the status is the flag of the block found. */
  lemma LineStatusAgreesWithFinder(bs: seq<Block>, line: int)
    requires ForestNested(bs)
    ensures line in GetLineStatus(bs) <==> FindBlockAtLine(bs, line).Some?
    ensures line in GetLineStatus(bs) && !Shared(bs, line) ==>
              && InForest(bs, FindBlockAtLine(bs, line).value)
              && GetLineStatus(bs)[line] == ForestAt(bs, FindBlockAtLine(bs, line).value).entered
  {
    FindFromSound(bs, 0, line);
    LineStatusIsOfLast(bs, line);
    if FindBlockAtLine(bs, line).Some? {
      FillerAgreesExactly(bs, line);
    } else {
      LastAmongNone(bs, line);
    }
  }

  /** The smallest forest with a shared line: on the line of `} else {` the finder answers the branch that closes
      and the filler the branch that opens, whatever their flags are. */
  lemma SharedLineDisagrees(closing: Block, opening: Block)
    requires closing.children == [] && opening.children == []
    requires closing.openBrace <= closing.closeBrace == opening.openBrace <= opening.closeBrace
    ensures var bs, line := [closing, opening], closing.closeBrace;
            && ForestNested(bs) && Shared(bs, line)
            && FindBlockAtLine(bs, line) == Some([0]) && ForestAt(bs, [0]) == closing
            && line in GetLineStatus(bs) && GetLineStatus(bs)[line] == opening.entered
  {
    var bs, line := [closing, opening], closing.closeBrace;
    assert LineInBlock(bs[0], line) && LineInBlock(bs[1], line);
    FindFromFirst(bs, 0, line, 0);
    var here: Path := [];
    assert Find(closing, line) == Some(here) && [0] + here == [0] && [0][1..] == here;
    LineStatusIsLastInPreorder(bs, line);
    assert bs[1..] == [opening] && [opening][1..] == [];
    assert AllOf([opening]) == [opening];
    assert AllOf(bs) == [closing] + [opening];
  }
}
