/** The resolver behind the single-parse form, `include_resolver.go` of the VCL parser: it splices included files into
    one program, refuses any file it has already spliced in, and limits the depth.  Proved: which include graphs
    it accepts. */
module IncludeResolve {
  import opened BackendRewrite
  import opened IncludeWalk
  import opened IncludeGraph

  datatype Resolved =
    | Resolved(program: seq<Decl>, visited: set<FilePath>)
    | TooDeep(at: FilePath)
    | IncludedTwice(at: FilePath)
    | NotReadable(path: FilePath)
    | NotParsed(path: FilePath)

  /** The resolver's default limit. */
  const RESOLVE_MAX_DEPTH := 10

  // ---------------------------------------------------------------- resolution as a function

  /** One included file.  Files stay visited after they have been spliced in. */
  function Resolve(disk: Disk, visited: set<FilePath>, depth: nat, f: FilePath): Resolved
    decreases Room(depth), 0
  {
    if depth >= RESOLVE_MAX_DEPTH then TooDeep(f)
    else if f in visited then IncludedTwice(f)
    else if f !in disk then NotReadable(f)
    else if disk[f].Unparsable? then NotParsed(f)
    else ResolveAll(disk, visited + {f}, depth + 1, disk[f].decls)
  }

  function ResolveAll(disk: Disk, visited: set<FilePath>, depth: nat, decls: seq<Decl>): Resolved
    decreases Room(depth), |decls| + 1
  {
    if decls == [] then Resolved([], visited)
    else if decls[0].Include? then
      var first := Resolve(disk, visited, depth, decls[0].target);
      if first.Resolved? then Before(first.program, ResolveAll(disk, first.visited, depth, decls[1..])) else first
    else Before([decls[0]], ResolveAll(disk, visited, depth, decls[1..]))
  }

  function Before(program: seq<Decl>, r: Resolved): Resolved {
    if r.Resolved? then r.(program := program + r.program) else r
  }

  /** The main file is parsed first, must state a version, and is not itself marked as visited. */
  function Expand(disk: Disk, main: FilePath): Resolved {
    if main !in disk then NotReadable(main)
    else if disk[main].Unparsable? || !disk[main].hasVersion then NotParsed(main)
    else ResolveAll(disk, {}, 0, disk[main].decls)
  }

  // ---------------------------------------------------------------- resolution as the resolver performs it

  class IncludeResolver {
    const disk: Disk
    var visitedFiles: set<FilePath>
    var currentDepth: nat

    constructor (disk: Disk)
      ensures this.disk == disk && visitedFiles == {} && currentDepth == 0
    {
      this.disk, visitedFiles, currentDepth := disk, {}, 0;
    }

    method ProcessIncludes(decls: seq<Decl>) returns (r: Resolved)
      modifies this
      ensures r == ResolveAll(disk, old(visitedFiles), old(currentDepth), decls)
      ensures r.Resolved? ==> r.visited == visitedFiles && currentDepth == old(currentDepth)
      decreases Room(currentDepth), 1
    {
      var newDeclarations: seq<Decl> := [];
      for i := 0 to |decls|
        invariant currentDepth == old(currentDepth)
        invariant ResolveAll(disk, old(visitedFiles), currentDepth, decls)
               == Before(newDeclarations, ResolveAll(disk, visitedFiles, currentDepth, decls[i..]))
      {
        ghost var rest := decls[i..];
        assert rest[1..] == decls[i + 1..];
        if decls[i].Include? {
          var included := ResolveFile(decls[i].target);
          if !included.Resolved? {
            return included;
          }
          BeforeTwice(newDeclarations, included.program, ResolveAll(disk, visitedFiles, currentDepth, rest[1..]));
          newDeclarations := newDeclarations + included.program;
        } else {
          BeforeTwice(newDeclarations, [decls[i]], ResolveAll(disk, visitedFiles, currentDepth, rest[1..]));
          newDeclarations := newDeclarations + [decls[i]];
        }
      }
      return Resolved(newDeclarations, visitedFiles);
    }

    method ResolveFile(f: FilePath) returns (r: Resolved)
      modifies this
      ensures r == Resolve(disk, old(visitedFiles), old(currentDepth), f)
      ensures r.Resolved? ==> r.visited == visitedFiles && currentDepth == old(currentDepth)
      decreases Room(currentDepth), 0
    {
      if currentDepth >= RESOLVE_MAX_DEPTH {
        return TooDeep(f);
      }
      if f in visitedFiles {
        return IncludedTwice(f);
      }
      if f !in disk {
        return NotReadable(f);
      }
      visitedFiles := visitedFiles + {f};
      currentDepth := currentDepth + 1;
      if disk[f].Unparsable? {
        return NotParsed(f);
      }
      r := ProcessIncludes(disk[f].decls);
      if r.Resolved? {
        currentDepth := currentDepth - 1;
      }
    }
  }

  lemma BeforeTwice(a: seq<Decl>, b: seq<Decl>, r: Resolved)
    ensures Before(a, Before(b, r)) == Before(a + b, r)
  {
    if r.Resolved? {
      assert a + (b + r.program) == a + b + r.program;
    }
  }

  // ---------------------------------------------------------------- the graphs it accepts

  /** Every file reachable from the main file is included in one place only, and the main file in none. */
  ghost predicate IncludedOnce(disk: Disk, main: FilePath) {
    && (forall f :: Reaches(disk, main, f) ==> Distinct(Targets(disk, f)))
    && (forall f :: !Includes(disk, main, f, main))
    && (forall f, g, t :: Includes(disk, main, f, t) && Includes(disk, main, g, t) ==> f == g)
  }

  /** A file reachable from the main file includes t. */
  ghost predicate Includes(disk: Disk, main: FilePath, f: FilePath, t: FilePath) {
    Reaches(disk, main, f) && t in Targets(disk, f)
  }

  predicate StatesVersion(disk: Disk, f: FilePath) {
    Parses(disk, f) && disk[f].hasVersion
  }

  ghost predicate AllParse(disk: Disk, main: FilePath) {
    forall f :: Reaches(disk, main, f) ==> Parses(disk, f)
  }

  /** No include path from the main file has more files than the limit. */
  ghost predicate NoLonger(disk: Disk, main: FilePath, limit: nat) {
    forall p :: IncludePath(disk, p) && p[0] == main ==> |p| <= limit
  }

  // ---------------------------------------------------------------- acceptance means one place each

  /** The set is closed under includes, all its files parse, and each is included once: by the targets or by one
      file of the set. */
  predicate Grove(disk: Disk, targets: seq<FilePath>, s: set<FilePath>) {
    && Distinct(targets)
    && (forall t :: t in targets ==> t in s)
    && (forall g :: g in s ==> Parses(disk, g) && Distinct(Targets(disk, g)))
    && (forall g, t :: g in s && t in Targets(disk, g) ==> t in s && t !in targets)
    && (forall g, h, t :: g in s && h in s && g != h && t in Targets(disk, g) ==> t !in Targets(disk, h))
  }

  lemma DistinctJoin(a: seq<FilePath>, s: set<FilePath>, b: seq<FilePath>, u: set<FilePath>)
    requires Distinct(a) && Distinct(b) && s !! u
    requires (forall t :: t in a ==> t in s) && (forall t :: t in b ==> t in u)
    ensures Distinct(a + b)
  {
    var c := a + b;
    forall i, j | 0 <= i < j < |c| ensures c[i] != c[j] {
      if i < |a| <= j {
        assert c[i] in a && c[j] == b[j - |a|] && c[j] in b;
      } else if i >= |a| {
        assert c[i] == b[i - |a|] && c[j] == b[j - |a|];
      }
    }
  }

  lemma GroveJoin(disk: Disk, a: seq<FilePath>, s: set<FilePath>, b: seq<FilePath>, u: set<FilePath>)
    requires Grove(disk, a, s) && Grove(disk, b, u) && s !! u
    ensures Grove(disk, a + b, s + u)
  {
    DistinctJoin(a, s, b, u);
    forall g, t | g in s + u && t in Targets(disk, g) ensures t in s + u && t !in a + b {
      if g in s {
        assert t in s && t !in a;
      } else {
        assert t in u && t !in b;
      }
    }
    forall g, h, t | g in s + u && h in s + u && g != h && t in Targets(disk, g) ensures t !in Targets(disk, h) {
      assert if g in s then t in s && t !in u else t in u && t !in s;
    }
  }

  lemma {:induction false} ResolveGrows(disk: Disk, visited: set<FilePath>, depth: nat, f: FilePath)
    requires Resolve(disk, visited, depth, f).Resolved?
    ensures var after := Resolve(disk, visited, depth, f).visited;
            f !in visited && visited + {f} <= after && Grove(disk, [f], after - visited)
    decreases Room(depth), 0
  {
    var after := Resolve(disk, visited, depth, f).visited;
    ResolveAllGrows(disk, visited + {f}, depth + 1, disk[f].decls);
    assert after - visited == (after - (visited + {f})) + {f};
    assert Targets(disk, f) == IncludesOf(disk[f].decls);
  }

  lemma {:induction false} ResolveAllGrows(disk: Disk, visited: set<FilePath>, depth: nat, decls: seq<Decl>)
    requires ResolveAll(disk, visited, depth, decls).Resolved?
    ensures var after := ResolveAll(disk, visited, depth, decls).visited;
            visited <= after && Grove(disk, IncludesOf(decls), after - visited)
    decreases Room(depth), |decls| + 1
  {
    if decls != [] {
      if decls[0].Include? {
        var f := decls[0].target;
        var between := Resolve(disk, visited, depth, f).visited;
        ResolveGrows(disk, visited, depth, f);
        ResolveAllGrows(disk, between, depth, decls[1..]);
        var after := ResolveAll(disk, visited, depth, decls).visited;
        GroveJoin(disk, [f], between - visited, IncludesOf(decls[1..]), after - between);
        assert after - visited == (between - visited) + (after - between);
      } else {
        ResolveAllGrows(disk, visited, depth, decls[1..]);
        assert [] + IncludesOf(decls[1..]) == IncludesOf(decls[1..]);
      }
    }
  }

  lemma SomeTarget(targets: seq<FilePath>)
    ensures targets != [] ==> exists t :: t in targets
  {
    if targets != [] {
      assert targets[0] in targets;
    }
  }

  lemma ExpandGrows(disk: Disk, main: FilePath)
    requires Expand(disk, main).Resolved?
    ensures main !in Expand(disk, main).visited
    ensures Grove(disk, [main], Expand(disk, main).visited + {main})
  {
    var after := Expand(disk, main).visited;
    ResolveAllGrows(disk, {}, 0, disk[main].decls);
    assert after - {} == after;
    assert Targets(disk, main) == IncludesOf(disk[main].decls);
    if main in after {
      SomeTarget(Targets(disk, main));
      NoIncludesNoVisits(disk, {}, 0, disk[main].decls);
    }
  }

  lemma {:induction false} NoIncludesNoVisits(disk: Disk, visited: set<FilePath>, depth: nat, decls: seq<Decl>)
    requires ResolveAll(disk, visited, depth, decls).Resolved? && IncludesOf(decls) == []
    ensures ResolveAll(disk, visited, depth, decls).visited == visited
    decreases |decls|
  {
    if decls != [] {
      NoIncludesNoVisits(disk, visited, depth, decls[1..]);
    }
  }

  lemma {:induction false} ResolvedIsNoLonger(
    disk: Disk, visited: set<FilePath>, depth: nat, decls: seq<Decl>, p: seq<FilePath>)
    requires ResolveAll(disk, visited, depth, decls).Resolved?
    requires IncludePath(disk, p) && p[0] in IncludesOf(decls)
    ensures |p| + depth <= 10
    decreases Room(depth), |decls| + 1
  {
    if decls[0].Include? && decls[0].target == p[0] {
      if |p| > 1 {
        PathTail(disk, p);
        ResolvedIsNoLonger(disk, visited + {p[0]}, depth + 1, disk[p[0]].decls, p[1..]);
      }
    } else {
      var next := if decls[0].Include? then Resolve(disk, visited, depth, decls[0].target).visited else visited;
      ResolvedIsNoLonger(disk, next, depth, decls[1..], p);
    }
  }

  lemma AcceptedGraphs(disk: Disk, main: FilePath)
    requires Expand(disk, main).Resolved?
    ensures StatesVersion(disk, main)
    ensures AllParse(disk, main) && IncludedOnce(disk, main) && NoLonger(disk, main, 11)
  {
    ExpandGrows(disk, main);
    var s := Expand(disk, main).visited + {main};
    assert Closed(disk, {}, s);
    forall f | Reaches(disk, main, f) ensures f in s {
      var p :| IncludePath(disk, p) && p[0] == main && p[|p| - 1] == f;
      ClosedHoldsPath(disk, s, p, |p| - 1);
    }
    assert main in [main];
    forall p | IncludePath(disk, p) && p[0] == main ensures |p| <= 11 {
      if |p| > 1 {
        PathTail(disk, p);
        ResolvedIsNoLonger(disk, {}, 0, disk[main].decls, p[1..]);
      }
    }
  }

  // ---------------------------------------------------------------- one place each means acceptance

  lemma PathPrefix(disk: Disk, p: seq<FilePath>, n: nat)
    requires IncludePath(disk, p) && 0 < n <= |p|
    ensures IncludePath(disk, p[..n]) && Reaches(disk, p[0], p[n - 1])
  {
    var q := p[..n];
    forall i | 0 <= i < |q| - 1 ensures q[i + 1] in Targets(disk, q[i]) {
      assert p[i + 1] in Targets(disk, p[i]);
    }
    assert IncludePath(disk, q) && q[0] == p[0] && q[|q| - 1] == p[n - 1];
  }

  /** What comes before the last file of a path: a shorter path. */
  lemma PathInit(disk: Disk, p: seq<FilePath>)
    requires IncludePath(disk, p) && |p| > 1
    ensures IncludePath(disk, p[..|p| - 1]) && p == p[..|p| - 1] + [p[|p| - 1]]
  {
    PathPrefix(disk, p, |p| - 1);
  }

  lemma LastIncluded(disk: Disk, p: seq<FilePath>)
    requires IncludePath(disk, p) && |p| > 1
    ensures Includes(disk, p[0], p[|p| - 2], p[|p| - 1])
  {
    PathPrefix(disk, p, |p| - 1);
    assert p[(|p| - 2) + 1] in Targets(disk, p[|p| - 2]);
  }

  lemma NeverMain(disk: Disk, main: FilePath, p: seq<FilePath>)
    requires IncludedOnce(disk, main) && IncludePath(disk, p) && p[0] == main && |p| > 1
    ensures p[|p| - 1] != main
  {
    LastIncluded(disk, p);
  }

  lemma SameIncluder(disk: Disk, main: FilePath, f: FilePath, g: FilePath, t: FilePath)
    requires IncludedOnce(disk, main) && Includes(disk, main, f, t) && Includes(disk, main, g, t)
    ensures f == g
  {
  }

  lemma OneIncluder(disk: Disk, main: FilePath, p: seq<FilePath>, q: seq<FilePath>)
    requires IncludedOnce(disk, main)
    requires IncludePath(disk, p) && IncludePath(disk, q) && p[0] == main == q[0]
    requires |p| > 1 && |q| > 1 && p[|p| - 1] == q[|q| - 1]
    ensures p[|p| - 2] == q[|q| - 2]
  {
    LastIncluded(disk, p);
    LastIncluded(disk, q);
    SameIncluder(disk, main, p[|p| - 2], q[|q| - 2], p[|p| - 1]);
  }

  /** Where every file is included in one place there is one include path from the main file to each. */
  lemma {:induction false} OnePathEach(disk: Disk, main: FilePath, p: seq<FilePath>, q: seq<FilePath>)
    requires IncludedOnce(disk, main)
    requires IncludePath(disk, p) && IncludePath(disk, q) && p[0] == main == q[0]
    requires p[|p| - 1] == q[|q| - 1]
    ensures p == q
    decreases |p|
  {
    if |p| == 1 && |q| == 1 {
      assert p == [main] == q;
    } else if |p| == 1 {
      NeverMain(disk, main, q);
    } else if |q| == 1 {
      NeverMain(disk, main, p);
    } else {
      OneIncluder(disk, main, p, q);
      PathInit(disk, p);
      PathInit(disk, q);
      OnePathEach(disk, main, p[..|p| - 1], q[..|q| - 1]);
    }
  }

  /** The file ends an include path that starts with the given one. */
  ghost predicate Under(disk: Disk, s: seq<FilePath>, v: FilePath) {
    exists p :: IncludePath(disk, p) && s <= p && p[|p| - 1] == v
  }

  ghost predicate UnderOne(disk: Disk, s: seq<FilePath>, targets: seq<FilePath>, v: FilePath) {
    exists t :: t in targets && Under(disk, s + [t], v)
  }

  lemma UnderShorter(disk: Disk, s: seq<FilePath>, t: FilePath, v: FilePath)
    requires Under(disk, s + [t], v)
    ensures Under(disk, s, v)
  {
    var p :| IncludePath(disk, p) && s + [t] <= p && p[|p| - 1] == v;
    assert s <= s + [t] <= p;
  }

  lemma UnderOther(disk: Disk, main: FilePath, s: seq<FilePath>, t: FilePath, u: FilePath, v: FilePath)
    requires IncludedOnce(disk, main) && s != [] && s[0] == main
    requires Under(disk, s + [t], v) && Under(disk, s + [u], v)
    ensures t == u
  {
    var p :| IncludePath(disk, p) && s + [t] <= p && p[|p| - 1] == v;
    var q :| IncludePath(disk, q) && s + [u] <= q && q[|q| - 1] == v;
    assert p[0] == (s + [t])[0] && q[0] == (s + [u])[0];
    OnePathEach(disk, main, p, q);
    assert p[|s|] == (s + [t])[|s|] && q[|s|] == (s + [u])[|s|];
  }

  lemma NotUnderSelf(disk: Disk, main: FilePath, s: seq<FilePath>, t: FilePath)
    requires IncludedOnce(disk, main) && IncludePath(disk, s) && s[0] == main
    ensures !Under(disk, s + [t], s[|s| - 1])
  {
    if Under(disk, s + [t], s[|s| - 1]) {
      var p :| IncludePath(disk, p) && s + [t] <= p && p[|p| - 1] == s[|s| - 1];
      assert p[0] == (s + [t])[0];
      OnePathEach(disk, main, p, s);
    }
  }

  /** What makes resolution succeed at the file that ends the path s. */
  ghost predicate Resolvable(disk: Disk, main: FilePath, s: seq<FilePath>) {
    && AllParse(disk, main) && IncludedOnce(disk, main) && NoLonger(disk, main, 11)
    && IncludePath(disk, s) && s[0] == main
  }

  lemma ResolvableMore(disk: Disk, main: FilePath, s: seq<FilePath>, t: FilePath)
    requires Resolvable(disk, main, s) && t in Targets(disk, s[|s| - 1])
    ensures Resolvable(disk, main, s + [t]) && Under(disk, s + [t], t)
    ensures Parses(disk, t) && Distinct(Targets(disk, t)) && |s| <= 10
  {
    var p := s + [t];
    PathMore(disk, s, t);
    assert p[|p| - 1] == t && p <= p && p[0] == main;
    PathPrefix(disk, p, |p|);
  }

  /** Nothing visited lies under the path. */
  ghost predicate Untouched(disk: Disk, s: seq<FilePath>, visited: set<FilePath>) {
    forall v :: v in visited ==> !Under(disk, s, v)
  }

  lemma UntouchedBelow(disk: Disk, main: FilePath, s: seq<FilePath>, u: FilePath, visited: set<FilePath>)
    requires IncludedOnce(disk, main) && IncludePath(disk, s) && s[0] == main
    requires Untouched(disk, s, visited)
    ensures Untouched(disk, s + [u], visited + {s[|s| - 1]})
  {
    NotUnderSelf(disk, main, s, u);
    forall v | v in visited ensures !Under(disk, s + [u], v) {
      if Under(disk, s + [u], v) {
        UnderShorter(disk, s, u, v);
      }
    }
  }

  lemma UntouchedBeside(
    disk: Disk, main: FilePath, s: seq<FilePath>, t: FilePath, u: FilePath, visited: set<FilePath>,
    after: set<FilePath>)
    requires IncludedOnce(disk, main) && s != [] && s[0] == main && t != u
    requires Untouched(disk, s + [u], visited)
    requires forall v :: v in after && v !in visited ==> Under(disk, s + [t], v)
    ensures Untouched(disk, s + [u], after)
  {
    forall v | v in after && v !in visited ensures !Under(disk, s + [u], v) {
      if Under(disk, s + [u], v) {
        UnderOther(disk, main, s, t, u, v);
      }
    }
  }

  lemma {:induction false} ResolveSucceeds(
    disk: Disk, main: FilePath, s: seq<FilePath>, t: FilePath, visited: set<FilePath>)
    requires Resolvable(disk, main, s) && t in Targets(disk, s[|s| - 1])
    requires Untouched(disk, s + [t], visited)
    ensures var r := Resolve(disk, visited, |s| - 1, t);
            r.Resolved? && forall v :: v in r.visited && v !in visited ==> Under(disk, s + [t], v)
    decreases Room(|s| - 1), 0
  {
    var p := s + [t];
    ResolvableMore(disk, main, s, t);
    var decls := disk[t].decls;
    assert Targets(disk, t) == IncludesOf(decls) && p[|p| - 1] == t;
    forall u | u in IncludesOf(decls) ensures Untouched(disk, p + [u], visited + {t}) {
      UntouchedBelow(disk, main, p, u, visited);
    }
    ResolveAllSucceeds(disk, main, p, decls, visited + {t});
    forall v | UnderOne(disk, p, IncludesOf(decls), v) ensures Under(disk, p, v) {
      var u :| u in IncludesOf(decls) && Under(disk, p + [u], v);
      UnderShorter(disk, p, u, v);
    }
  }

  lemma {:induction false} ResolveAllSucceeds(
    disk: Disk, main: FilePath, s: seq<FilePath>, decls: seq<Decl>, visited: set<FilePath>)
    requires Resolvable(disk, main, s)
    requires Distinct(IncludesOf(decls)) && forall t :: t in IncludesOf(decls) ==> t in Targets(disk, s[|s| - 1])
    requires forall t :: t in IncludesOf(decls) ==> Untouched(disk, s + [t], visited)
    ensures var r := ResolveAll(disk, visited, |s| - 1, decls);
            r.Resolved? && forall v :: v in r.visited && v !in visited ==> UnderOne(disk, s, IncludesOf(decls), v)
    decreases Room(|s| - 1), |decls| + 1
  {
    if decls != [] {
      var rest := decls[1..];
      if decls[0].Include? {
        var t := decls[0].target;
        FirstTarget(decls);
        ResolveSucceeds(disk, main, s, t, visited);
        var between := Resolve(disk, visited, |s| - 1, t).visited;
        forall u | u in IncludesOf(rest) ensures Untouched(disk, s + [u], between) {
          UntouchedBeside(disk, main, s, t, u, visited, between);
        }
        ResolveAllSucceeds(disk, main, s, rest, between);
      } else {
        assert IncludesOf(decls) == IncludesOf(rest);
        ResolveAllSucceeds(disk, main, s, rest, visited);
      }
    }
  }

  lemma FirstTarget(decls: seq<Decl>)
    requires decls != [] && decls[0].Include? && Distinct(IncludesOf(decls))
    ensures IncludesOf(decls) == [decls[0].target] + IncludesOf(decls[1..])
    ensures decls[0].target in IncludesOf(decls) && Distinct(IncludesOf(decls[1..]))
    ensures forall u :: u in IncludesOf(decls[1..]) ==> u in IncludesOf(decls) && u != decls[0].target
  {
    var targets, rest := IncludesOf(decls), IncludesOf(decls[1..]);
    assert targets == [decls[0].target] + rest;
    assert forall i :: 0 <= i < |rest| ==> rest[i] == targets[i + 1];
    assert decls[0].target == targets[0];
  }

  /** Exactly which include graphs the resolver accepts: the main file states a version, every reachable file reads
      and parses, each is included in one place only, the main file in none, and no include path has more than eleven
      files. */
  lemma ResolvesExactlyWhen(disk: Disk, main: FilePath)
    ensures Expand(disk, main).Resolved?
            <==> && StatesVersion(disk, main) && AllParse(disk, main) && IncludedOnce(disk, main)
                 && NoLonger(disk, main, 11)
  {
    if Expand(disk, main).Resolved? {
      AcceptedGraphs(disk, main);
    }
    if && StatesVersion(disk, main) && AllParse(disk, main) && IncludedOnce(disk, main)
       && NoLonger(disk, main, 11) {
      ReachesSelf(disk, main);
      assert IncludePath(disk, [main]);
      assert Targets(disk, main) == IncludesOf(disk[main].decls);
      ResolveAllSucceeds(disk, main, [main], disk[main].decls, {});
    }
  }
}
