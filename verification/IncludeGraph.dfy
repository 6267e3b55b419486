/** What the include walk achieves, stated in terms of the include graph: reachability, depth-first preorder and
    simple paths. */
module IncludeGraph {
  import opened BackendRewrite
  import opened IncludeWalk

  predicate Parses(disk: Disk, f: FilePath) {
    f in disk && disk[f].Parsed?
  }

  /** The files a file includes, in order; none when it cannot be read or parsed. */
  function Targets(disk: Disk, f: FilePath): seq<FilePath> {
    if Parses(disk, f) then IncludesOf(disk[f].decls) else []
  }

  predicate IncludePath(disk: Disk, p: seq<FilePath>) {
    && p != []
    && forall i :: 0 <= i < |p| - 1 ==> p[i + 1] in Targets(disk, p[i])
  }

  ghost predicate Reaches(disk: Disk, from: FilePath, to: FilePath) {
    exists p :: IncludePath(disk, p) && p[0] == from && p[|p| - 1] == to
  }

  predicate Distinct(p: seq<FilePath>) {
    forall i, j :: 0 <= i < j < |p| ==> p[i] != p[j]
  }

  lemma PathTail(disk: Disk, p: seq<FilePath>)
    requires IncludePath(disk, p) && |p| > 1
    ensures IncludePath(disk, p[1..]) && p[1] in Targets(disk, p[0])
  {
    assert p[0 + 1] in Targets(disk, p[0]);
    forall i | 0 <= i < |p[1..]| - 1 ensures p[1..][i + 1] in Targets(disk, p[1..][i]) {
      assert p[(i + 1) + 1] in Targets(disk, p[i + 1]);
    }
  }

  lemma PathMore(disk: Disk, s: seq<FilePath>, t: FilePath)
    requires IncludePath(disk, s) && t in Targets(disk, s[|s| - 1])
    ensures IncludePath(disk, s + [t])
  {
    var p := s + [t];
    forall i | 0 <= i < |p| - 1 ensures p[i + 1] in Targets(disk, p[i]) {
      if i < |s| - 1 {
        assert s[i + 1] in Targets(disk, s[i]);
      }
    }
  }

  lemma ReachesSelf(disk: Disk, f: FilePath)
    ensures Reaches(disk, f, f)
  {
    assert IncludePath(disk, [f]);
  }

  lemma PathLonger(disk: Disk, f: FilePath, p: seq<FilePath>)
    requires IncludePath(disk, p) && p[0] in Targets(disk, f)
    ensures IncludePath(disk, [f] + p)
  {
    var q := [f] + p;
    forall i | 0 <= i < |q| - 1 ensures q[i + 1] in Targets(disk, q[i]) {
      if i > 0 {
        assert p[(i - 1) + 1] in Targets(disk, p[i - 1]);
      }
    }
  }

  lemma ReachesThrough(disk: Disk, from: FilePath, next: FilePath, to: FilePath)
    requires next in Targets(disk, from) && Reaches(disk, next, to)
    ensures Reaches(disk, from, to)
  {
    var p :| IncludePath(disk, p) && p[0] == next && p[|p| - 1] == to;
    var q := [from] + p;
    PathLonger(disk, from, p);
    assert q[0] == from && q[|q| - 1] == to;
  }

  // ---------------------------------------------------------------- only reachable files are visited

  lemma {:induction false} VisitsReachable(disk: Disk, addresses: Addresses, st: WalkState, path: FilePath)
    ensures var w := Walk(disk, addresses, st, path);
            && st.visited <= w.state.visited
            && (forall f :: f in w.state.visited && f !in st.visited ==> Reaches(disk, path, f))
            && (w.outcome.UnreadableFile? ==> w.outcome.path !in disk && Reaches(disk, path, w.outcome.path))
            && (w.outcome.UnparsableFile? ==>
                  w.outcome.path in disk && disk[w.outcome.path].Unparsable? && Reaches(disk, path, w.outcome.path))
    decreases Room(st.depth), 0
  {
    ReachesSelf(disk, path);
    if st.depth < MAX_INCLUDE_DEPTH && path !in st.visited && Parses(disk, path) {
      var decls := disk[path].decls;
      var entered := Enter(st.(visited := st.visited + {path}), addresses, path, decls);
      var targets := IncludesOf(decls);
      VisitsAllReachable(disk, addresses, entered, targets);
      forall f, t | t in targets && Reaches(disk, t, f) ensures Reaches(disk, path, f) {
        ReachesThrough(disk, path, t, f);
      }
    }
  }

  ghost predicate ReachedFromOne(disk: Disk, targets: seq<FilePath>, f: FilePath) {
    exists t :: t in targets && Reaches(disk, t, f)
  }

  lemma {:induction false} VisitsAllReachable(
    disk: Disk, addresses: Addresses, st: WalkState, targets: seq<FilePath>)
    ensures var w := WalkAll(disk, addresses, st, targets);
            && st.visited <= w.state.visited
            && (forall f :: f in w.state.visited && f !in st.visited ==> ReachedFromOne(disk, targets, f))
            && (w.outcome.UnreadableFile? ==> w.outcome.path !in disk && ReachedFromOne(disk, targets, w.outcome.path))
            && (w.outcome.UnparsableFile? ==>
                  && w.outcome.path in disk && disk[w.outcome.path].Unparsable?
                  && ReachedFromOne(disk, targets, w.outcome.path))
    decreases Room(st.depth), |targets| + 1
  {
    if targets != [] {
      VisitsReachable(disk, addresses, st, targets[0]);
      var w := Walk(disk, addresses, st, targets[0]);
      if w.outcome.Done? {
        VisitsAllReachable(disk, addresses, w.state, targets[1..]);
        forall f | ReachedFromOne(disk, targets[1..], f) ensures ReachedFromOne(disk, targets, f) {
          var t :| t in targets[1..] && Reaches(disk, t, f);
          assert t in targets;
        }
      }
    }
  }

  // ---------------------------------------------------------------- everything reachable is visited

  /** Every file visited since `before` parses and has all its includes visited. */
  predicate Closed(disk: Disk, before: set<FilePath>, after: set<FilePath>) {
    forall f :: f in after && f !in before ==>
                  Parses(disk, f) && forall t :: t in Targets(disk, f) ==> t in after
  }

  lemma {:induction false} WalkCloses(disk: Disk, addresses: Addresses, st: WalkState, path: FilePath)
    requires Walk(disk, addresses, st, path).outcome.Done?
    ensures var after := Walk(disk, addresses, st, path).state.visited;
            st.visited <= after && path in after && Closed(disk, st.visited, after)
    decreases Room(st.depth), 0
  {
    if path !in st.visited {
      var decls := disk[path].decls;
      var entered := Enter(st.(visited := st.visited + {path}), addresses, path, decls);
      WalkAllCloses(disk, addresses, entered, IncludesOf(decls));
    }
  }

  lemma {:induction false} WalkAllCloses(disk: Disk, addresses: Addresses, st: WalkState, targets: seq<FilePath>)
    requires WalkAll(disk, addresses, st, targets).outcome.Done?
    ensures var after := WalkAll(disk, addresses, st, targets).state.visited;
            st.visited <= after && (forall t :: t in targets ==> t in after) && Closed(disk, st.visited, after)
    decreases Room(st.depth), |targets| + 1
  {
    if targets != [] {
      WalkCloses(disk, addresses, st, targets[0]);
      WalkAllCloses(disk, addresses, Walk(disk, addresses, st, targets[0]).state, targets[1..]);
    }
  }

  lemma {:induction false} ClosedHoldsPath(disk: Disk, after: set<FilePath>, p: seq<FilePath>, i: nat)
    requires Closed(disk, {}, after) && IncludePath(disk, p) && p[0] in after && i < |p|
    ensures p[i] in after
    decreases i
  {
    if i > 0 {
      ClosedHoldsPath(disk, after, p, i - 1);
      assert p[(i - 1) + 1] in Targets(disk, p[i - 1]);
    }
  }

  // ---------------------------------------------------------------- the output list

  function Paths(processed: seq<Processed>): seq<FilePath> {
    seq(|processed|, i requires 0 <= i < |processed| => processed[i].path)
  }

  /** The output holds each visited file once, rewritten, and the names collected are theirs. */
  ghost predicate Consistent(disk: Disk, addresses: Addresses, st: WalkState) {
    && Distinct(Paths(st.processed))
    && (forall f :: f in st.visited <==> f in Paths(st.processed))
    && (forall i :: 0 <= i < |st.processed| ==>
                      && Parses(disk, st.processed[i].path)
                      && st.processed[i].content == Rewrite(disk[st.processed[i].path].decls, addresses))
    && (forall name :: name in st.backendNames <==>
                         exists f :: f in st.visited && Parses(disk, f) && name in BackendNames(disk[f].decls))
  }

  lemma EnterConsistent(disk: Disk, addresses: Addresses, st: WalkState, path: FilePath)
    requires Consistent(disk, addresses, st) && path !in st.visited && Parses(disk, path)
    ensures var decls := disk[path].decls;
            Consistent(disk, addresses, Enter(st.(visited := st.visited + {path}), addresses, path, decls))
  {
    var decls := disk[path].decls;
    var entered := Enter(st.(visited := st.visited + {path}), addresses, path, decls);
    assert Paths(entered.processed) == Paths(st.processed) + [path];
    forall name ensures name in entered.backendNames <==>
                          exists f :: f in entered.visited && Parses(disk, f) && name in BackendNames(disk[f].decls)
    {
      if name in BackendNames(decls) {
        assert path in entered.visited;
      } else if name in st.backendNames {
        var f :| f in st.visited && Parses(disk, f) && name in BackendNames(disk[f].decls);
        assert f in entered.visited;
      }
    }
  }

  lemma {:induction false} WalkConsistent(disk: Disk, addresses: Addresses, st: WalkState, path: FilePath)
    requires Consistent(disk, addresses, st)
    requires Walk(disk, addresses, st, path).outcome.Done?
    ensures Consistent(disk, addresses, Walk(disk, addresses, st, path).state)
    decreases Room(st.depth), 0
  {
    if path !in st.visited {
      EnterConsistent(disk, addresses, st, path);
      var decls := disk[path].decls;
      var entered := Enter(st.(visited := st.visited + {path}), addresses, path, decls);
      WalkAllConsistent(disk, addresses, entered, IncludesOf(decls));
    }
  }

  lemma {:induction false} WalkAllConsistent(
    disk: Disk, addresses: Addresses, st: WalkState, targets: seq<FilePath>)
    requires Consistent(disk, addresses, st)
    requires WalkAll(disk, addresses, st, targets).outcome.Done?
    ensures Consistent(disk, addresses, WalkAll(disk, addresses, st, targets).state)
    decreases Room(st.depth), |targets| + 1
  {
    if targets != [] {
      WalkConsistent(disk, addresses, st, targets[0]);
      WalkAllConsistent(disk, addresses, Walk(disk, addresses, st, targets[0]).state, targets[1..]);
    }
  }

  // ---------------------------------------------------------------- depth-first preorder

  datatype Traversal = Traversal(visited: set<FilePath>, order: seq<FilePath>)

  /** Depth-first preorder with no depth limit; it ends because every step visits a new file. */
  function Preorder(disk: Disk, visited: set<FilePath>, f: FilePath): (t: Traversal)
    ensures visited <= t.visited
    decreases disk.Keys - visited, 0
  {
    if f in visited || !Parses(disk, f) then Traversal(visited, [])
    else
      var below := PreorderAll(disk, visited + {f}, Targets(disk, f));
      Traversal(below.visited, [f] + below.order)
  }

  function PreorderAll(disk: Disk, visited: set<FilePath>, fs: seq<FilePath>): (t: Traversal)
    ensures visited <= t.visited
    decreases disk.Keys - visited, |fs| + 1
  {
    if fs == [] then Traversal(visited, [])
    else
      var first := Preorder(disk, visited, fs[0]);
      assert disk.Keys - first.visited <= disk.Keys - visited;
      var others := PreorderAll(disk, first.visited, fs[1..]);
      Traversal(others.visited, first.order + others.order)
  }

  /** The walk appended exactly the files of the order to its output. */
  predicate Appends(before: seq<Processed>, after: seq<Processed>, order: seq<FilePath>) {
    Paths(after) == Paths(before) + order
  }

  lemma AppendsNothing(processed: seq<Processed>)
    ensures Appends(processed, processed, [])
  {
  }

  lemma AppendsBoth(
    a: seq<Processed>, b: seq<Processed>, c: seq<Processed>, first: seq<FilePath>, second: seq<FilePath>)
    requires Appends(a, b, first) && Appends(b, c, second)
    ensures Appends(a, c, first + second)
  {
    assert Paths(a) + first + second == Paths(a) + (first + second);
  }

  lemma AppendsOne(processed: seq<Processed>, p: Processed)
    ensures Appends(processed, processed + [p], [p.path])
  {
  }

  lemma {:induction false} WalkIsPreorder(disk: Disk, addresses: Addresses, st: WalkState, path: FilePath)
    requires Walk(disk, addresses, st, path).outcome.Done?
    ensures var after, t := Walk(disk, addresses, st, path).state, Preorder(disk, st.visited, path);
            after.visited == t.visited && Appends(st.processed, after.processed, t.order)
    decreases Room(st.depth), 0
  {
    if path in st.visited {
      AppendsNothing(st.processed);
    } else {
      var decls := disk[path].decls;
      var entered := Enter(st.(visited := st.visited + {path}), addresses, path, decls);
      WalkAllIsPreorder(disk, addresses, entered, IncludesOf(decls));
      AppendsOne(st.processed, Processed(path, Rewrite(decls, addresses)));
      AppendsBoth(st.processed, entered.processed, Walk(disk, addresses, st, path).state.processed,
                  [path], PreorderAll(disk, entered.visited, IncludesOf(decls)).order);
    }
  }

  lemma {:induction false} WalkAllIsPreorder(
    disk: Disk, addresses: Addresses, st: WalkState, targets: seq<FilePath>)
    requires WalkAll(disk, addresses, st, targets).outcome.Done?
    ensures var after, t := WalkAll(disk, addresses, st, targets).state, PreorderAll(disk, st.visited, targets);
            after.visited == t.visited && Appends(st.processed, after.processed, t.order)
    decreases Room(st.depth), |targets| + 1
  {
    if targets == [] {
      AppendsNothing(st.processed);
    } else {
      var middle := Walk(disk, addresses, st, targets[0]).state;
      WalkIsPreorder(disk, addresses, st, targets[0]);
      WalkAllIsPreorder(disk, addresses, middle, targets[1..]);
      AppendsBoth(st.processed, middle.processed, WalkAll(disk, addresses, st, targets).state.processed,
                  Preorder(disk, st.visited, targets[0]).order,
                  PreorderAll(disk, middle.visited, targets[1..]).order);
    }
  }

  /** A successful walk outputs exactly the files reachable from the main file by includes, cycles and diamonds
      included, each once, in depth-first preorder with the main file first, each rewritten; it collects exactly
      their backend names and leaves the depth counter where it was. */
  lemma WalkOutputsReachable(disk: Disk, addresses: Addresses, main: FilePath)
    requires Walk(disk, addresses, START, main).outcome.Done?
    ensures var st := Walk(disk, addresses, START, main).state;
            var order := Paths(st.processed);
            && st.depth == 0
            && order != [] && order[0] == main
            && Distinct(order)
            && (forall f :: f in order <==> Reaches(disk, main, f))
            && order == Preorder(disk, {}, main).order
            && Consistent(disk, addresses, st)
  {
    var st := Walk(disk, addresses, START, main).state;
    VisitsReachable(disk, addresses, START, main);
    WalkCloses(disk, addresses, START, main);
    WalkConsistent(disk, addresses, START, main);
    WalkIsPreorder(disk, addresses, START, main);
    assert Paths([]) == [];
    forall f | Reaches(disk, main, f) ensures f in st.visited {
      var p :| IncludePath(disk, p) && p[0] == main && p[|p| - 1] == f;
      ClosedHoldsPath(disk, st.visited, p, |p| - 1);
    }
  }

  // ---------------------------------------------------------------- the depth limit

  /** The chain of files being walked: a simple include path whose last file includes the next one. */
  predicate Stack(disk: Disk, st: WalkState, stack: seq<FilePath>) {
    && |stack| == st.depth
    && Distinct(stack)
    && (forall f :: f in stack ==> f in st.visited)
    && (stack != [] ==> IncludePath(disk, stack))
  }

  /** An include path of ten pairwise distinct files that extends the stack and whose last file includes `at`. */
  predicate DeepPath(disk: Disk, stack: seq<FilePath>, p: seq<FilePath>, at: FilePath) {
    && stack <= p && |p| == 10
    && Distinct(p) && IncludePath(disk, p)
    && at in Targets(disk, p[|p| - 1])
  }

  lemma {:induction false} DepthErrorPath(
    disk: Disk, addresses: Addresses, st: WalkState, path: FilePath, stack: seq<FilePath>)
    returns (p: seq<FilePath>)
    requires Stack(disk, st, stack) && |stack| <= MAX_INCLUDE_DEPTH
    requires stack != [] ==> path in Targets(disk, stack[|stack| - 1])
    requires Walk(disk, addresses, st, path).outcome.DepthExceeded?
    ensures DeepPath(disk, stack, p, Walk(disk, addresses, st, path).outcome.at)
    ensures stack == [] ==> p[0] == path
    decreases Room(st.depth), 0
  {
    if st.depth >= MAX_INCLUDE_DEPTH {
      p := stack;
    } else {
      var decls := disk[path].decls;
      var entered := Enter(st.(visited := st.visited + {path}), addresses, path, decls);
      var deeper := stack + [path];
      assert IncludePath(disk, deeper) by {
        forall i | 0 <= i < |deeper| - 1 ensures deeper[i + 1] in Targets(disk, deeper[i]) {
          if i < |stack| - 1 {
            assert stack[i + 1] in Targets(disk, stack[i]);
          }
        }
      }
      p := DepthErrorPathAll(disk, addresses, entered, IncludesOf(decls), deeper);
      assert stack <= deeper && p[|stack|] == deeper[|stack|];
    }
  }

  lemma {:induction false} DepthErrorPathAll(
    disk: Disk, addresses: Addresses, st: WalkState, targets: seq<FilePath>, stack: seq<FilePath>)
    returns (p: seq<FilePath>)
    requires Stack(disk, st, stack) && 0 < |stack| <= MAX_INCLUDE_DEPTH
    requires forall t :: t in targets ==> t in Targets(disk, stack[|stack| - 1])
    requires WalkAll(disk, addresses, st, targets).outcome.DepthExceeded?
    ensures DeepPath(disk, stack, p, WalkAll(disk, addresses, st, targets).outcome.at)
    decreases Room(st.depth), |targets| + 1
  {
    var w := Walk(disk, addresses, st, targets[0]);
    assert targets[0] in targets;
    if w.outcome.Done? {
      VisitsReachable(disk, addresses, st, targets[0]);
      assert forall t :: t in targets[1..] ==> t in targets;
      p := DepthErrorPathAll(disk, addresses, w.state, targets[1..], stack);
    } else {
      p := DepthErrorPath(disk, addresses, st, targets[0], stack);
    }
  }

  /** Every simple include path from the file has fewer files than the depth limit. */
  ghost predicate Shallow(disk: Disk, main: FilePath) {
    forall p :: IncludePath(disk, p) && p[0] == main && Distinct(p) ==> |p| < 10
  }

  /** A depth error means that ten pairwise distinct files, the first of them the main file, include one another
      in a chain whose last file has a further include. */
  lemma DepthErrorMeansLongChain(disk: Disk, addresses: Addresses, main: FilePath)
    requires Walk(disk, addresses, START, main).outcome.DepthExceeded?
    ensures exists p :: DeepPath(disk, [main], p, Walk(disk, addresses, START, main).outcome.at)
    ensures !Shallow(disk, main)
  {
    var p := DepthErrorPath(disk, addresses, START, main, []);
    assert DeepPath(disk, [main], p, Walk(disk, addresses, START, main).outcome.at);
  }

  /** Where no simple include path is as long as the limit, the walk succeeds exactly when every file reachable
      from the main file can be read and parsed. */
  lemma ShallowGraphsWalk(disk: Disk, addresses: Addresses, main: FilePath)
    requires Shallow(disk, main)
    ensures Walk(disk, addresses, START, main).outcome.Done?
            <==> forall f :: Reaches(disk, main, f) ==> Parses(disk, f)
  {
    VisitsReachable(disk, addresses, START, main);
    var w := Walk(disk, addresses, START, main);
    if w.outcome.DepthExceeded? {
      DepthErrorMeansLongChain(disk, addresses, main);
    }
    if w.outcome.Done? {
      WalkOutputsReachable(disk, addresses, main);
      forall f | Reaches(disk, main, f) ensures Parses(disk, f) {
        var i :| 0 <= i < |w.state.processed| && Paths(w.state.processed)[i] == f;
      }
    }
  }
}
