/** The two forms of `pkg/vclmod` against each other: the walker, which rewrites every file on its own, and the
    single parse, which resolves includes first and rewrites the one program that results. */
module SingleParse {
  import opened Common
  import opened BackendRewrite
  import opened IncludeWalk
  import opened IncludeGraph
  import opened IncludeInline
  import opened IncludeResolve

  // ---------------------------------------------------------------- where relative includes lead

  /** The declarations as the single parse reads them: it resolves every include against the main file's directory. */
  function SeenFromMain(decls: seq<Decl>): seq<Decl> {
    seq(|decls|, i requires 0 <= i < |decls| =>
      if decls[i].Include? then decls[i].(target := decls[i].fromMain) else decls[i])
  }

  function FromMain(disk: Disk): Disk {
    map f | f in disk :: if disk[f].Parsed? then Parsed(SeenFromMain(disk[f].decls), disk[f].hasVersion) else Unparsable
  }

  /** Every include below the file leads to the same file from either directory. */
  ghost predicate OneBase(disk: Disk, f: FilePath) {
    forall g :: Reaches(disk, f, g) && Parses(disk, g) ==> SeenFromMain(disk[g].decls) == disk[g].decls
  }

  lemma {:induction false} SameBaseResolves(disk: Disk, visited: set<FilePath>, depth: nat, f: FilePath)
    requires OneBase(disk, f)
    ensures Resolve(FromMain(disk), visited, depth, f) == Resolve(disk, visited, depth, f)
    decreases Room(depth), 0
  {
    if depth < MAX_INCLUDE_DEPTH && f !in visited && Parses(disk, f) {
      BaseBelow(disk, f);
      SameBaseResolvesAll(disk, visited + {f}, depth + 1, disk[f].decls);
    }
    SameFileResolves(disk, FromMain(disk), visited, depth, f);
  }

  lemma SameFileResolves(disk: Disk, seen: Disk, visited: set<FilePath>, depth: nat, f: FilePath)
    requires f in seen <==> f in disk
    requires f in disk ==> seen[f].Parsed? == disk[f].Parsed?
    requires depth < MAX_INCLUDE_DEPTH && f !in visited && Parses(disk, f) ==>
               && seen[f].decls == disk[f].decls
               && ResolveAll(seen, visited + {f}, depth + 1, disk[f].decls)
                  == ResolveAll(disk, visited + {f}, depth + 1, disk[f].decls)
    ensures Resolve(seen, visited, depth, f) == Resolve(disk, visited, depth, f)
  {
  }

  lemma BaseBelow(disk: Disk, f: FilePath)
    requires OneBase(disk, f) && Parses(disk, f)
    ensures FromMain(disk)[f] == disk[f]
    ensures forall t :: t in IncludesOf(disk[f].decls) ==> OneBase(disk, t)
  {
    ReachesSelf(disk, f);
    forall t, g | t in IncludesOf(disk[f].decls) && Reaches(disk, t, g) ensures Reaches(disk, f, g) {
      assert t in Targets(disk, f);
      ReachesThrough(disk, f, t, g);
    }
  }

  lemma {:induction false} SameBaseResolvesAll(disk: Disk, visited: set<FilePath>, depth: nat, decls: seq<Decl>)
    requires forall t :: t in IncludesOf(decls) ==> OneBase(disk, t)
    ensures ResolveAll(FromMain(disk), visited, depth, decls) == ResolveAll(disk, visited, depth, decls)
    decreases Room(depth), |decls| + 1
  {
    if decls != [] {
      if decls[0].Include? {
        assert decls[0].target in IncludesOf(decls);
        SameBaseResolves(disk, visited, depth, decls[0].target);
        var first := Resolve(disk, visited, depth, decls[0].target);
        if first.Resolved? {
          SameBaseResolvesAll(disk, first.visited, depth, decls[1..]);
        }
      } else {
        SameBaseResolvesAll(disk, visited, depth, decls[1..]);
      }
    }
  }

  lemma SameBaseExpands(disk: Disk, main: FilePath)
    requires OneBase(disk, main)
    ensures Expand(FromMain(disk), main) == Expand(disk, main)
  {
    if Parses(disk, main) {
      BaseBelow(disk, main);
      SameBaseResolvesAll(disk, {}, 0, disk[main].decls);
    }
  }

  // ---------------------------------------------------------------- what the resolver accepts, it inlines

  lemma {:induction false} ResolvedInlines(
    disk: Disk, visited: set<FilePath>, depth: nat, f: FilePath, open: set<FilePath>)
    requires Resolve(disk, visited, depth, f).Resolved?
    requires forall g :: g in open ==> g in visited || g !in Resolve(disk, visited, depth, f).visited
    ensures Inline(ParsedFiles(disk), f, open) == Some(Resolve(disk, visited, depth, f).program)
    decreases Room(depth), 0
  {
    ResolveGrows(disk, visited, depth, f);
    ResolvedInlinesAll(disk, visited + {f}, depth + 1, disk[f].decls, open + {f});
  }

  lemma {:induction false} ResolvedInlinesAll(
    disk: Disk, visited: set<FilePath>, depth: nat, decls: seq<Decl>, open: set<FilePath>)
    requires ResolveAll(disk, visited, depth, decls).Resolved?
    requires forall g :: g in open ==> g in visited || g !in ResolveAll(disk, visited, depth, decls).visited
    ensures InlineAll(ParsedFiles(disk), decls, open) == Some(ResolveAll(disk, visited, depth, decls).program)
    decreases Room(depth), |decls| + 1
  {
    if decls != [] {
      if decls[0].Include? {
        var first := Resolve(disk, visited, depth, decls[0].target);
        ResolveGrows(disk, visited, depth, decls[0].target);
        ResolveAllGrows(disk, first.visited, depth, decls[1..]);
        ResolvedInlines(disk, visited, depth, decls[0].target, open);
        ResolvedInlinesAll(disk, first.visited, depth, decls[1..], open);
      } else {
        ResolvedInlinesAll(disk, visited, depth, decls[1..], open);
      }
    }
  }

  lemma ExpandedInlines(disk: Disk, main: FilePath)
    requires Expand(disk, main).Resolved?
    ensures Inline(ParsedFiles(disk), main, {}) == Some(Expand(disk, main).program)
  {
    ExpandGrows(disk, main);
    ResolvedInlinesAll(disk, {}, 0, disk[main].decls, {main});
    assert {} + {main} == {main};
  }

  /** Where both forms succeed on the same files they agree: the walker's output, inlined from the main file, is the
      rewriting of the single parse's program, and the names collected are the same. */
  lemma WalkerAgreesWithSingleParse(disk: Disk, addresses: Addresses, main: FilePath)
    requires OneBase(disk, main)
    requires Walk(disk, addresses, START, main).outcome.Done? && Expand(FromMain(disk), main).Resolved?
    ensures var st := Walk(disk, addresses, START, main).state;
            var whole := Expand(FromMain(disk), main).program;
            && Inline(Output(st.processed), main, {}) == Some(Rewrite(whole, addresses))
            && st.backendNames == BackendNames(whole)
  {
    SameBaseExpands(disk, main);
    ExpandedInlines(disk, main);
    WalkerOutputInlines(disk, addresses, main);
  }

  // ---------------------------------------------------------------- when each form succeeds

  /** The walker visits what the resolver visits, and the main file. */
  lemma {:induction false} WalkFollows(
    disk: Disk, addresses: Addresses, st: WalkState, visited: set<FilePath>, depth: nat, f: FilePath, main: FilePath)
    requires Resolve(disk, visited, depth, f).Resolved? && main !in Resolve(disk, visited, depth, f).visited
    requires st.visited == visited + {main} && Walk(disk, addresses, st, f).outcome.Done?
    ensures Walk(disk, addresses, st, f).state.visited == Resolve(disk, visited, depth, f).visited + {main}
    ensures forall p :: IncludePath(disk, p) && p[0] == f ==> |p| + st.depth <= 10
    decreases Room(depth), 0
  {
    ResolveGrows(disk, visited, depth, f);
    var decls := disk[f].decls;
    var entered := Enter(st.(visited := st.visited + {f}), addresses, f, decls);
    assert entered.visited == visited + {f} + {main};
    WalkAllFollows(disk, addresses, entered, visited + {f}, depth + 1, decls, main);
    forall p | IncludePath(disk, p) && p[0] == f ensures |p| + st.depth <= 10 {
      if |p| > 1 {
        PathTail(disk, p);
      }
    }
  }

  lemma {:induction false} WalkAllFollows(
    disk: Disk, addresses: Addresses, st: WalkState, visited: set<FilePath>, depth: nat, decls: seq<Decl>,
    main: FilePath)
    requires ResolveAll(disk, visited, depth, decls).Resolved?
    requires main !in ResolveAll(disk, visited, depth, decls).visited
    requires st.visited == visited + {main} && WalkAll(disk, addresses, st, IncludesOf(decls)).outcome.Done?
    ensures WalkAll(disk, addresses, st, IncludesOf(decls)).state.visited
            == ResolveAll(disk, visited, depth, decls).visited + {main}
    ensures forall p :: IncludePath(disk, p) && p[0] in IncludesOf(decls) ==> |p| + st.depth <= 10
    decreases Room(depth), |decls| + 1
  {
    if decls != [] {
      var rest := decls[1..];
      if decls[0].Include? {
        var t := decls[0].target;
        var first, w := Resolve(disk, visited, depth, t), Walk(disk, addresses, st, t);
        assert IncludesOf(decls) == [t] + IncludesOf(rest) && IncludesOf(decls)[1..] == IncludesOf(rest);
        ResolveAllGrows(disk, first.visited, depth, rest);
        WalkFollows(disk, addresses, st, visited, depth, t, main);
        WalkAllFollows(disk, addresses, w.state, first.visited, depth, rest, main);
      } else {
        assert IncludesOf(decls) == IncludesOf(rest);
        WalkAllFollows(disk, addresses, st, visited, depth, rest, main);
      }
    }
  }

  lemma WalkedIsNoLonger(disk: Disk, addresses: Addresses, main: FilePath)
    requires Expand(disk, main).Resolved? && Walk(disk, addresses, START, main).outcome.Done?
    ensures NoLonger(disk, main, 10)
  {
    ExpandGrows(disk, main);
    var decls := disk[main].decls;
    var entered := Enter(START.(visited := START.visited + {main}), addresses, main, decls);
    WalkAllFollows(disk, addresses, entered, {}, 0, decls, main);
    forall p | IncludePath(disk, p) && p[0] == main ensures |p| <= 10 {
      if |p| > 1 {
        PathTail(disk, p);
      }
    }
  }

  lemma DepthErrorNeedsElevenFiles(disk: Disk, addresses: Addresses, main: FilePath)
    requires Walk(disk, addresses, START, main).outcome.DepthExceeded?
    ensures !NoLonger(disk, main, 10)
  {
    DepthErrorMeansLongChain(disk, addresses, main);
    var at := Walk(disk, addresses, START, main).outcome.at;
    var p :| DeepPath(disk, [main], p, at);
    PathMore(disk, p, at);
    assert (p + [at])[0] == p[0] == main;
  }

  lemma OnlyDepthFails(disk: Disk, addresses: Addresses, main: FilePath)
    requires AllParse(disk, main)
    ensures var w := Walk(disk, addresses, START, main); w.outcome.Done? || w.outcome.DepthExceeded?
  {
    VisitsReachable(disk, addresses, START, main);
  }

  /** The walker counts the main file against its depth limit and the resolver does not: on what the resolver
      accepts, the walker succeeds if and only if no include path has eleven files. */
  lemma WalkerStopsOneSooner(disk: Disk, addresses: Addresses, main: FilePath)
    requires Expand(disk, main).Resolved?
    ensures Walk(disk, addresses, START, main).outcome.Done? <==> NoLonger(disk, main, 10)
  {
    AcceptedGraphs(disk, main);
    OnlyDepthFails(disk, addresses, main);
    if Walk(disk, addresses, START, main).outcome.Done? {
      WalkedIsNoLonger(disk, addresses, main);
    } else {
      DepthErrorNeedsElevenFiles(disk, addresses, main);
    }
  }

  lemma OncePathNeverReturns(disk: Disk, main: FilePath, p: seq<FilePath>, i: nat, j: nat)
    requires IncludedOnce(disk, main) && IncludePath(disk, p) && p[0] == main && i < j < |p|
    ensures p[i] != p[j]
  {
    var q, r := p[..i + 1], p[..j + 1];
    PathPrefix(disk, p, i + 1);
    PathPrefix(disk, p, j + 1);
    assert |q| < |r| && q[|q| - 1] == p[i] && r[|r| - 1] == p[j];
    if p[i] == p[j] {
      OnePathEach(disk, main, q, r);
    }
  }

  lemma OncePathsAreSimple(disk: Disk, main: FilePath, p: seq<FilePath>)
    requires IncludedOnce(disk, main) && IncludePath(disk, p) && p[0] == main
    ensures Distinct(p)
  {
    forall i, j | 0 <= i < j < |p| ensures p[i] != p[j] {
      OncePathNeverReturns(disk, main, p, i, j);
    }
  }

  /** Away from the depth limits the forms differ in two things: where every reachable file parses, the walker always
      succeeds, and the single parse succeeds if and only if the main file states a version and no file is included in
      two places.  A diamond is walked by the one and refused by the other. */
  lemma OnlyTheWalkerTakesDiamonds(disk: Disk, addresses: Addresses, main: FilePath)
    requires Shallow(disk, main) && OneBase(disk, main)
    ensures Walk(disk, addresses, START, main).outcome.Done? <==> AllParse(disk, main)
    ensures Expand(FromMain(disk), main).Resolved?
            <==> StatesVersion(disk, main) && AllParse(disk, main) && IncludedOnce(disk, main)
  {
    SameBaseExpands(disk, main);
    ShallowGraphsWalk(disk, addresses, main);
    ResolvesExactlyWhen(disk, main);
    if IncludedOnce(disk, main) {
      forall p | IncludePath(disk, p) && p[0] == main ensures |p| <= 11 {
        OncePathsAreSimple(disk, main, p);
      }
    }
  }

  // ---------------------------------------------------------------- two inputs on which the forms differ

  lemma WalkOne(disk: Disk, addresses: Addresses, st: WalkState, f: FilePath)
    requires Parses(disk, f) && f !in st.visited && st.depth < MAX_INCLUDE_DEPTH
    ensures var decls := disk[f].decls;
            var below := WalkAll(disk, addresses, Enter(st.(visited := st.visited + {f}), addresses, f, decls),
                                 IncludesOf(decls));
            && (Walk(disk, addresses, st, f).outcome.Done? <==> below.outcome.Done?)
            && (below.outcome.Done? ==>
                  Walk(disk, addresses, st, f).state == below.state.(depth := below.state.depth - 1))
  {
  }

  lemma WalkNext(disk: Disk, addresses: Addresses, st: WalkState, t: FilePath, rest: seq<FilePath>)
    requires Walk(disk, addresses, st, t).outcome.Done?
    ensures WalkAll(disk, addresses, st, [t] + rest)
            == WalkAll(disk, addresses, Walk(disk, addresses, st, t).state, rest)
  {
    assert ([t] + rest)[1..] == rest;
  }

  function Including(targets: seq<FilePath>): Contents {
    Parsed(seq(|targets|, i requires 0 <= i < |targets| => Include(targets[i], targets[i])), true)
  }

  lemma {:induction false} IncludesOfIncluding(targets: seq<FilePath>)
    ensures IncludesOf(Including(targets).decls) == targets
    decreases |targets|
  {
    if targets != [] {
      assert Including(targets).decls[1..] == Including(targets[1..]).decls;
      IncludesOfIncluding(targets[1..]);
    }
  }

  function DiamondFiles(main: FilePath, a: FilePath, b: FilePath, c: FilePath): Disk {
    map[main := Including([a, b]), a := Including([c]), b := Including([c]), c := Including([])]
  }

  lemma DiamondWalked(addresses: Addresses, main: FilePath, a: FilePath, b: FilePath, c: FilePath)
    requires main != a && main != b && main != c && a != b && a != c && b != c
    ensures Walk(DiamondFiles(main, a, b, c), addresses, START, main).outcome.Done?
  {
    var disk := DiamondFiles(main, a, b, c);
    IncludesOfIncluding([a, b]);
    IncludesOfIncluding([c]);
    IncludesOfIncluding([]);
    var s1 := Enter(START.(visited := START.visited + {main}), addresses, main, disk[main].decls);
    var s2 := Enter(s1.(visited := s1.visited + {a}), addresses, a, disk[a].decls);
    var s3 := Enter(s2.(visited := s2.visited + {c}), addresses, c, disk[c].decls);
    WalkOne(disk, addresses, START, main);
    WalkOne(disk, addresses, s1, a);
    WalkOne(disk, addresses, s2, c);
    assert [c] + [] == [c] && [a] + [b] == [a, b] && [b] + [] == [b];
    WalkNext(disk, addresses, s2, c, []);
    WalkNext(disk, addresses, s1, a, [b]);
    var s4 := Walk(disk, addresses, s1, a).state;
    assert c in s4.visited && b !in s4.visited;
    WalkOne(disk, addresses, s4, b);
    var s5 := Enter(s4.(visited := s4.visited + {b}), addresses, b, disk[b].decls);
    WalkNext(disk, addresses, s5, c, []);
    WalkNext(disk, addresses, s4, b, []);
  }

  /** The main file includes two files that both include a third: the walker writes out each file once, the single
      parse refuses the program. */
  lemma Diamond(addresses: Addresses, main: FilePath, a: FilePath, b: FilePath, c: FilePath)
    requires main != a && main != b && main != c && a != b && a != c && b != c
    ensures Walk(DiamondFiles(main, a, b, c), addresses, START, main).outcome.Done?
    ensures !Expand(FromMain(DiamondFiles(main, a, b, c)), main).Resolved?
  {
    var disk := DiamondFiles(main, a, b, c);
    DiamondWalked(addresses, main, a, b, c);
    IncludesOfIncluding([a, b]);
    IncludesOfIncluding([c]);
    assert FromMain(disk) == disk by {
      assert forall f :: f in disk ==> SeenFromMain(disk[f].decls) == disk[f].decls;
    }
    assert IncludePath(disk, [main, a]) && IncludePath(disk, [main, b]);
    assert Reaches(disk, main, a) && Reaches(disk, main, b);
    assert c in Targets(disk, a) && c in Targets(disk, b);
    assert Includes(disk, main, a, c) && Includes(disk, main, b, c);
    if Expand(disk, main).Resolved? {
      AcceptedGraphs(disk, main);
    }
  }

  /** A file in another directory with a relative include: the walker looks next to that file, the single parse next
      to the main file. */
  lemma OtherDirectory(addresses: Addresses, main: FilePath, a: FilePath, beside: FilePath, elsewhere: FilePath)
    requires main != a && main != beside && main != elsewhere
    requires a != beside && a != elsewhere && beside != elsewhere
    ensures var disk :=
              map[main := Including([a]), a := Parsed([Include(beside, elsewhere)], true), beside := Including([])];
            && Walk(disk, addresses, START, main).outcome.Done?
            && Expand(FromMain(disk), main) == NotReadable(elsewhere)
  {
    var disk := map[main := Including([a]), a := Parsed([Include(beside, elsewhere)], true), beside := Including([])];
    IncludesOfIncluding([a]);
    IncludesOfIncluding([]);
    assert [Include(beside, elsewhere)][1..] == [];
    assert IncludesOf(disk[a].decls) == [beside];
    var s1 := Enter(START.(visited := START.visited + {main}), addresses, main, disk[main].decls);
    var s2 := Enter(s1.(visited := s1.visited + {a}), addresses, a, disk[a].decls);
    WalkOne(disk, addresses, START, main);
    WalkOne(disk, addresses, s1, a);
    WalkOne(disk, addresses, s2, beside);
    assert [beside] + [] == [beside] && [a] + [] == [a];
    WalkNext(disk, addresses, s2, beside, []);
    WalkNext(disk, addresses, s1, a, []);
    var seen := FromMain(disk);
    assert seen[main].decls == [Include(a, a)] && seen[a].decls == [Include(elsewhere, elsewhere)];
    assert Resolve(seen, {a}, 1, elsewhere) == NotReadable(elsewhere);
    assert ResolveAll(seen, {a}, 1, seen[a].decls) == NotReadable(elsewhere);
    assert Resolve(seen, {}, 0, a) == NotReadable(elsewhere) by {
      assert {} + {a} == {a};
    }
  }

  // ---------------------------------------------------------------- the entry points

  datatype Report =
    | WalkFailed(outcome: Outcome)
    | Invalid(errors: seq<string>, warnings: seq<string>)
    | Success(files: seq<Processed>, warnings: seq<string>)

  /** The report of a walk with the names it collected. */
  ghost predicate Reports(report: Report, walked: Walked, addresses: Addresses) {
    var names := walked.state.backendNames;
    match report
    case WalkFailed(outcome) => !outcome.Done? && outcome == walked.outcome
    case Invalid(errors, warnings) =>
      && walked.outcome.Done? && !(addresses.Keys <= names)
      && Lists(errors, addresses.Keys - names) && Lists(warnings, names - addresses.Keys)
    case Success(files, warnings) =>
      && walked.outcome.Done? && addresses.Keys <= names
      && files == walked.state.processed && Lists(warnings, names - addresses.Keys)
  }

  datatype SingleReport =
    | Unresolved(trouble: Resolved)
    | Rejected(errors: seq<string>, warnings: seq<string>)
    | Rewritten(program: seq<Decl>, warnings: seq<string>)

  /** What the single parse must report for the program its includes resolve to. */
  ghost predicate SingleReports(report: SingleReport, resolved: Resolved, addresses: Addresses) {
    var names := if resolved.Resolved? then BackendNames(resolved.program) else {};
    match report
    case Unresolved(trouble) => !resolved.Resolved? && trouble == resolved
    case Rejected(errors, warnings) =>
      && resolved.Resolved? && !(addresses.Keys <= names)
      && Lists(errors, addresses.Keys - names) && Lists(warnings, names - addresses.Keys)
    case Rewritten(program, warnings) =>
      && resolved.Resolved? && addresses.Keys <= names
      && program == Rewrite(resolved.program, addresses) && Lists(warnings, names - addresses.Keys)
  }

  /** The walker's entry point. */
  method ProcessVCLWithIncludes(disk: Disk, addresses: Addresses, main: FilePath) returns (report: Report)
    ensures Reports(report, Walk(disk, addresses, START, main), addresses)
  {
    var walker := new IncludeWalker(disk, addresses);
    var outcome := walker.WalkFile(main);
    if !outcome.Done? {
      return WalkFailed(outcome);
    }
    var errors, warnings := walker.ValidateBackends();
    if |errors| > 0 {
      assert errors[0] in errors;
      return Invalid(errors, warnings);
    }
    ListsNothing(errors, addresses.Keys, walker.vclBackends.Keys);
    return Success(walker.processedFiles, warnings);
  }

  /** The single-parse form: parse the main file, resolve its includes, validate and rewrite the one program. */
  method ValidateAndModifyBackends(disk: Disk, addresses: Addresses, main: FilePath) returns (report: SingleReport)
    ensures SingleReports(report, Expand(FromMain(disk), main), addresses)
  {
    if main !in disk {
      return Unresolved(NotReadable(main));
    }
    if disk[main].Unparsable? || !disk[main].hasVersion {
      return Unresolved(NotParsed(main));
    }
    var resolver := new IncludeResolver(FromMain(disk));
    var resolved := resolver.ProcessIncludes(SeenFromMain(disk[main].decls));
    if !resolved.Resolved? {
      return Unresolved(resolved);
    }
    var whole := resolved.program;
    var declared := CollectNames(whole, map[]);
    var errors, warnings, _ := CheckNames(addresses, declared);
    if |errors| > 0 {
      assert errors[0] in errors;
      return Rejected(errors, warnings);
    }
    ListsNothing(errors, addresses.Keys, BackendNames(whole));
    var program := new Program(whole);
    program.ModifyBackends(addresses);
    return Rewritten(program.declarations, warnings);
  }

  ghost predicate SameNames(a: seq<string>, b: seq<string>) {
    forall name :: name in a <==> name in b
  }

  /** What the two reports have in common; the files written out are read back as one program by inlining them from
      the main file. */
  ghost predicate Alike(report: Report, single: SingleReport, main: FilePath) {
    match report
    case WalkFailed(_) => false
    case Invalid(errors, warnings) =>
      single.Rejected? && SameNames(errors, single.errors) && SameNames(warnings, single.warnings)
    case Success(files, warnings) =>
      && single.Rewritten? && SameNames(warnings, single.warnings)
      && Inline(Output(files), main, {}) == Some(single.program)
  }

  /** Whatever the two forms report for the same files: unless the walk or the resolution fails, both reject with the
      same errors and warnings or both rewrite to the same program with the same warnings. */
  lemma ReportsAreAlike(
    disk: Disk, addresses: Addresses, main: FilePath, report: Report, single: SingleReport)
    requires OneBase(disk, main)
    requires Reports(report, Walk(disk, addresses, START, main), addresses) && !report.WalkFailed?
    requires SingleReports(single, Expand(FromMain(disk), main), addresses) && !single.Unresolved?
    ensures Alike(report, single, main)
  {
    WalkerAgreesWithSingleParse(disk, addresses, main);
  }
}
