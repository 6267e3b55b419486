/** The block tree as the original keeps it: heap objects whose `Entered` flag the marker sets in place.  Every
    method is proved against the value model of module `Blocks` through the view of the tree. */
module BlockHeap {
  import opened Common
  import opened Blocks

  class BlockNode {
    const kind: Kind
    const name: string
    const headerLine: int
    const openBrace: int
    const closeBrace: int
    const children: seq<BlockNode>
    var entered: bool
    ghost const repr: set<BlockNode>

    /** The nodes below this one form a tree: no node is reached twice. */
    ghost predicate Valid()
      decreases repr
    {
      && this in repr
      && (forall i :: 0 <= i < |children| ==>
                        children[i].repr < repr && this !in children[i].repr && children[i].Valid())
      && Apart(children)
    }

    ghost function View(): Block
      requires Valid()
      reads repr
      decreases repr
    {
      Block(kind, name, headerLine, openBrace, closeBrace, entered,
            seq(|children|, i requires 0 <= i < |children| reads repr => children[i].View()))
    }

    constructor (kind: Kind, name: string, headerLine: int, openBrace: int, closeBrace: int, children: seq<BlockNode>)
      requires ValidForest(children)
      ensures Valid() && fresh(this) && repr == {this} + ForestRepr(children)
      ensures View() == Block(kind, name, headerLine, openBrace, closeBrace, false, ForestView(children))
    {
      this.kind, this.name, this.headerLine := kind, name, headerLine;
      this.openBrace, this.closeBrace, this.children := openBrace, closeBrace, children;
      this.entered := false;
      this.repr := {this} + ForestRepr(children);
      new;
      assert forall i :: 0 <= i < |children| ==> children[i].repr <= ForestRepr(children);
    }

    method LineInBlock(line: int) returns (inside: bool)
      requires Valid()
      ensures inside == Blocks.LineInBlock(View(), line)
    {
      inside := openBrace <= line && line <= closeBrace;
    }

    /** Whether a child's range, brace lines included, holds the line. */
    method InsideChild(line: int) returns (inside: bool)
      requires Valid()
      ensures inside <==> exists i :: 0 <= i < |children| && children[i].openBrace <= line <= children[i].closeBrace
    {
      inside := false;
      for i := 0 to |children|
        invariant !inside
        invariant forall k :: 0 <= k < i ==> !(children[k].openBrace <= line <= children[k].closeBrace)
      {
        if line >= children[i].openBrace && line <= children[i].closeBrace {
          inside := true;
          return;
        }
      }
    }

    /** Whether some traced line is this block's own; the traced set is walked in no particular order. */
    method HasOwnTrace(traced: set<int>) returns (own: bool)
      requires Valid()
      ensures own == OwnTrace(View(), traced)
    {
      own := false;
      var rest := traced;
      while rest != {}
        invariant rest <= traced
        invariant forall line :: line in traced - rest ==> !OwnLine(View(), line)
        decreases rest
      {
        var line := Pick(rest);
        if line > openBrace && line < closeBrace {
          var inside := InsideChild(line);
          if !inside {
            assert OwnLine(View(), line);
            return true;
          }
          ghost var i :| 0 <= i < |children| && children[i].openBrace <= line <= children[i].closeBrace;
          assert Blocks.LineInBlock(View().children[i], line);
        }
        rest := rest - {line};
      }
    }

    /** The children are matched first. */
    method MatchChildren(traced: set<int>)
      requires Valid()
      modifies (repr - {this})`entered
      ensures View() == old(View()).(children := Mark(old(View()), traced).children)
      decreases repr, 0
    {
      ghost var before := View();
      for i := 0 to |children|
        invariant entered == old(entered)
        invariant forall k :: 0 <= k < i ==> children[k].View() == Mark(old(children[k].View()), traced)
        invariant forall k :: i <= k < |children| ==> children[k].View() == old(children[k].View())
      {
        label L:
        children[i].MatchRecursive(traced);
        forall k | 0 <= k < |children| && k != i ensures children[k].View() == old@L(children[k].View()) {
          assert children[k].repr !! children[i].repr;
        }
      }
      assert View().children == Mark(before, traced).children;
    }

    /** You cannot enter a child without entering its parent. */
    method ChildEntered() returns (any: bool)
      requires Valid()
      ensures any == AnyEntered(View().children)
    {
      any := false;
      for i := 0 to |children|
        invariant !any && forall k :: 0 <= k < i ==> !children[k].entered
      {
        if children[i].entered {
          assert View().children[i].entered;
          return true;
        }
      }
      assert forall k :: 0 <= k < |children| ==> !View().children[k].entered;
    }

    method MatchRecursive(traced: set<int>)
      requires Valid()
      modifies repr`entered
      ensures View() == Mark(old(View()), traced)
      decreases repr, 1
    {
      ghost var before := View();
      MatchChildren(traced);
      MarkedSameOwnTrace(before, traced, traced);
      var own := HasOwnTrace(traced);
      if own {
        Enter();
      }
      var any := ChildEntered();
      if any {
        Enter();
      }
    }

    method Enter()
      requires Valid()
      modifies this`entered
      ensures View() == old(View()).(entered := true)
    {
      ghost var before := View();
      entered := true;
      assert View().children == before.children;
    }

    /** The node the path leads to, or null where it leads nowhere. */
    ghost function NodeAt(p: Path): BlockNode?
      decreases |p|
    {
      if p == [] then this
      else if p[0] < |children| then children[p[0]].NodeAt(p[1..])
      else null
    }

    ghost function NodeIf(p: Option<Path>): BlockNode? {
      if p.Some? then NodeAt(p.value) else null
    }

    /** The deepest block containing the line, children searched in order. */
    method FindRecursive(line: int) returns (found: BlockNode?)
      requires Valid()
      ensures found == NodeIf(Find(View(), line))
      ensures found == null <==> Find(View(), line).None?
      decreases repr
    {
      if !(line >= openBrace && line <= closeBrace) {
        return null;
      }
      for i := 0 to |children|
        invariant FindFrom(View().children, 0, line) == FindFrom(View().children, i, line)
      {
        assert View().children[i] == children[i].View();
        found := children[i].FindRecursive(line);
        if found != null {
          ghost var inChild := Find(children[i].View(), line).value;
          assert ([i] + inChild)[1..] == inChild;
          return;
        }
      }
      return this;
    }

    /** Every line of the block takes the block's flag, then the children overwrite their ranges. */
    method FillLineStatus(status: StatusTable)
      requires Valid()
      modifies status
      ensures status.lines == Fill(View(), old(status.lines))
      decreases repr, 0
    {
      var line := openBrace;
      while line <= closeBrace
        invariant openBrace <= line
        invariant openBrace <= closeBrace ==> line <= closeBrace + 1
        invariant openBrace > closeBrace ==> line == openBrace
        invariant forall l :: openBrace <= l < line ==> l in status.lines && status.lines[l] == entered
        invariant forall l :: !(openBrace <= l < line) ==>
                                Lookup(status.lines, l) == Lookup(old(status.lines), l)
        decreases closeBrace - line
      {
        status.lines := status.lines[line := entered];
        line := line + 1;
      }
      ghost var own := old(status.lines) + Lines(View());
      assert status.lines == own by {
        forall l ensures Lookup(status.lines, l) == Lookup(own, l) {
          assert Blocks.LineInBlock(View(), l) <==> openBrace <= l < line;
        }
        SameLookupsSameMap(status.lines, own);
      }
      FillForest(children, status, View().children);
    }
  }

  /** The line table that all the calls of one filling share. */
  class StatusTable {
    var lines: map<int, bool>

    constructor ()
      ensures lines == map[]
    {
      lines := map[];
    }
  }

  lemma SameLookupsSameMap(a: map<int, bool>, b: map<int, bool>)
    requires forall l :: Lookup(a, l) == Lookup(b, l)
    ensures a == b
  {
    forall l ensures l in a <==> l in b {
      assert Lookup(a, l) == Lookup(b, l);
    }
    forall l | l in a ensures a[l] == b[l] {
      assert Lookup(a, l) == Lookup(b, l);
    }
  }

  method FillForest(nodes: seq<BlockNode>, status: StatusTable, ghost views: seq<Block>)
    requires ValidForest(nodes)
    requires views == ForestView(nodes)
    modifies status
    ensures status.lines == FillAll(views, old(status.lines))
    decreases ForestRepr(nodes), 1
  {
    for i := 0 to |nodes|
      invariant FillAll(views[i..], status.lines) == FillAll(views, old(status.lines))
    {
      assert views[i..][1..] == views[i + 1..];
      assert nodes[i].repr <= ForestRepr(nodes);
      nodes[i].FillLineStatus(status);
    }
    assert views[|nodes|..] == [];
  }

  method GetLineStatus(nodes: seq<BlockNode>) returns (status: map<int, bool>)
    requires ValidForest(nodes)
    ensures status == Blocks.GetLineStatus(ForestView(nodes))
  {
    ghost var views := ForestView(nodes);
    var table := new StatusTable();
    assert ForestView(nodes) == views;
    FillForest(nodes, table, views);
    assert ForestView(nodes) == views;
    status := table.lines;
  }

  ghost function NodeInForest(nodes: seq<BlockNode>, path: Option<Path>): BlockNode? {
    if path.Some? && path.value != [] && path.value[0] < |nodes|
    then nodes[path.value[0]].NodeAt(path.value[1..]) else null
  }

  method FindBlockAtLine(nodes: seq<BlockNode>, line: int) returns (found: BlockNode?)
    requires ValidForest(nodes)
    ensures found == NodeInForest(nodes, Blocks.FindBlockAtLine(ForestView(nodes), line))
    ensures found == null <==> Blocks.FindBlockAtLine(ForestView(nodes), line).None?
  {
    ghost var views := ForestView(nodes);
    for i := 0 to |nodes|
      invariant FindFrom(views, 0, line) == FindFrom(views, i, line)
    {
      assert views[i] == nodes[i].View();
      found := nodes[i].FindRecursive(line);
      if found != null {
        ghost var inTree := Find(nodes[i].View(), line).value;
        assert ([i] + inTree)[1..] == inTree;
        assert ForestView(nodes) == views;
        return;
      }
    }
    assert ForestView(nodes) == views;
    return null;
  }

  /** The public marker: the traced lines become a set and every top-level block is matched in place. */
  method MatchTracesToBlocks(nodes: seq<BlockNode>, tracedLines: seq<int>)
    requires ValidForest(nodes)
    modifies ForestRepr(nodes)`entered
    ensures ForestView(nodes) == MarkForest(old(ForestView(nodes)), set line | line in tracedLines)
  {
    var traced := {};
    for i := 0 to |tracedLines|
      invariant traced == set line | line in tracedLines[..i]
    {
      assert tracedLines[..i + 1] == tracedLines[..i] + [tracedLines[i]];
      traced := traced + {tracedLines[i]};
    }
    assert tracedLines[..|tracedLines|] == tracedLines;
    ghost var before := ForestView(nodes);
    for i := 0 to |nodes|
      invariant forall k :: 0 <= k < i ==> nodes[k].View() == Mark(before[k], traced)
      invariant forall k :: i <= k < |nodes| ==> nodes[k].View() == before[k]
    {
      label L:
      nodes[i].MatchRecursive(traced);
      forall k | 0 <= k < |nodes| && k != i ensures nodes[k].View() == old@L(nodes[k].View()) {
        assert nodes[k].repr !! nodes[i].repr;
      }
    }
  }

  ghost predicate Apart(nodes: seq<BlockNode>) {
    forall i, j :: 0 <= i < j < |nodes| ==> nodes[i].repr !! nodes[j].repr
  }

  ghost predicate ValidForest(nodes: seq<BlockNode>) {
    && (forall i :: 0 <= i < |nodes| ==> nodes[i].Valid())
    && Apart(nodes)
  }

  ghost function ForestRepr(nodes: seq<BlockNode>): set<BlockNode> {
    set i, n | 0 <= i < |nodes| && n in nodes[i].repr :: n
  }

  ghost function ForestView(nodes: seq<BlockNode>): seq<Block>
    requires ValidForest(nodes)
    reads ForestRepr(nodes)
  {
    seq(|nodes|, i requires 0 <= i < |nodes| reads ForestRepr(nodes) => nodes[i].View())
  }
}
