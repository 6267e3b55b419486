/** Rewriting commutes with inlining: the walker's rewritten files, inlined from the main file, are the rewriting of
    the inlined original.  Inlining here is what a compiler does that expands every include where it stands, however
    often a file is included; `IncludeResolve` has the resolver of the single-parse form. */
module IncludeInline {
  import opened Common
  import opened BackendRewrite
  import opened IncludeWalk
  import opened IncludeGraph

  type Files = map<FilePath, seq<Decl>>

  /** Every include replaced by the included file's declarations.  There is no such program when a file includes
      itself, directly or not, or when a file is missing. */
  function Inline(files: Files, f: FilePath, open: set<FilePath>): Option<seq<Decl>>
    decreases files.Keys - open, 0
  {
    if f in open || f !in files then None else InlineAll(files, files[f], open + {f})
  }

  function InlineAll(files: Files, decls: seq<Decl>, open: set<FilePath>): Option<seq<Decl>>
    decreases files.Keys - open, |decls| + 1
  {
    if decls == [] then Some([])
    else
      var first := if decls[0].Include? then Inline(files, decls[0].target, open) else Some([decls[0]]);
      var others := InlineAll(files, decls[1..], open);
      if first.Some? && others.Some? then Some(first.value + others.value) else None
  }

  function RewriteFiles(files: Files, addresses: Addresses): Files {
    map f | f in files :: Rewrite(files[f], addresses)
  }

  function RewriteResolved(program: Option<seq<Decl>>, addresses: Addresses): Option<seq<Decl>> {
    if program.Some? then Some(Rewrite(program.value, addresses)) else None
  }

  lemma RewriteConcat(a: seq<Decl>, b: seq<Decl>, addresses: Addresses)
    ensures Rewrite(a + b, addresses) == Rewrite(a, addresses) + Rewrite(b, addresses)
  {
  }

  /** For every include graph, cyclic ones included: inlining the rewritten files is rewriting the inlined
      program. */
  lemma {:induction false} RewriteCommutes(
    files: Files, addresses: Addresses, f: FilePath, open: set<FilePath>)
    ensures Inline(RewriteFiles(files, addresses), f, open)
            == RewriteResolved(Inline(files, f, open), addresses)
    decreases files.Keys - open, 0
  {
    assert RewriteFiles(files, addresses).Keys == files.Keys;
    if f !in open && f in files {
      RewriteCommutesAll(files, addresses, files[f], open + {f});
    }
  }

  lemma {:induction false} RewriteCommutesAll(
    files: Files, addresses: Addresses, decls: seq<Decl>, open: set<FilePath>)
    ensures InlineAll(RewriteFiles(files, addresses), Rewrite(decls, addresses), open)
            == RewriteResolved(InlineAll(files, decls, open), addresses)
    decreases files.Keys - open, |decls| + 1
  {
    if decls == [] {
      assert Rewrite([], addresses) == [];
    } else {
      assert Rewrite(decls, addresses)[1..] == Rewrite(decls[1..], addresses);
      RewriteCommutesAll(files, addresses, decls[1..], open);
      var others := InlineAll(files, decls[1..], open);
      if decls[0].Include? {
        RewriteCommutes(files, addresses, decls[0].target, open);
        var first := Inline(files, decls[0].target, open);
        if first.Some? && others.Some? {
          RewriteConcat(first.value, others.value, addresses);
        }
      } else if others.Some? {
        RewriteConcat([decls[0]], others.value, addresses);
        assert Rewrite([decls[0]], addresses) == [RewriteDecl(decls[0], addresses)];
      }
    }
  }

  // ---------------------------------------------------------------- inlining sees only what the main file reaches

  /** Two file systems that hold the same declarations for every file of a set closed under includes. */
  predicate AgreeOn(a: Files, b: Files, s: set<FilePath>) {
    forall f :: f in s ==> f in a && f in b && a[f] == b[f] && forall t :: t in IncludesOf(a[f]) ==> t in s
  }

  lemma {:induction false} InlineAgrees(a: Files, b: Files, s: set<FilePath>, f: FilePath, open: set<FilePath>)
    requires AgreeOn(a, b, s) && f in s && open <= s
    ensures Inline(a, f, open) == Inline(b, f, open)
    decreases s - open, 0
  {
    if f !in open {
      InlineAllAgrees(a, b, s, a[f], open + {f});
    }
  }

  lemma {:induction false} InlineAllAgrees(
    a: Files, b: Files, s: set<FilePath>, decls: seq<Decl>, open: set<FilePath>)
    requires AgreeOn(a, b, s) && open <= s && forall t :: t in IncludesOf(decls) ==> t in s
    ensures InlineAll(a, decls, open) == InlineAll(b, decls, open)
    decreases s - open, |decls| + 1
  {
    if decls != [] {
      InlineAllAgrees(a, b, s, decls[1..], open);
      if decls[0].Include? {
        assert decls[0].target in IncludesOf(decls);
        InlineAgrees(a, b, s, decls[0].target, open);
      }
    }
  }

  // ---------------------------------------------------------------- names of the inlined program

  function ParsedFiles(disk: Disk): Files {
    map f | f in disk && disk[f].Parsed? :: disk[f].decls
  }

  ghost predicate DeclaredBelow(disk: Disk, f: FilePath, name: string) {
    exists g :: Reaches(disk, f, g) && Parses(disk, g) && name in BackendNames(disk[g].decls)
  }

  ghost predicate DeclaredIn(disk: Disk, decls: seq<Decl>, name: string) {
    || name in BackendNames(decls)
    || exists t :: t in IncludesOf(decls) && DeclaredBelow(disk, t, name)
  }

  lemma BelowIsInOrUnder(disk: Disk, f: FilePath, name: string)
    requires Parses(disk, f)
    ensures DeclaredBelow(disk, f, name) <==> DeclaredIn(disk, disk[f].decls, name)
  {
    var decls := disk[f].decls;
    if DeclaredBelow(disk, f, name) {
      var g :| Reaches(disk, f, g) && Parses(disk, g) && name in BackendNames(disk[g].decls);
      var p :| IncludePath(disk, p) && p[0] == f && p[|p| - 1] == g;
      if |p| > 1 {
        var t := p[1];
        var q := p[1..];
        PathTail(disk, p);
        assert q[0] == t && q[|q| - 1] == g;
        assert Reaches(disk, t, g);
        assert DeclaredBelow(disk, t, name);
      }
    }
    if DeclaredIn(disk, decls, name) {
      if name in BackendNames(decls) {
        ReachesSelf(disk, f);
      } else {
        var t :| t in IncludesOf(decls) && DeclaredBelow(disk, t, name);
        var g :| Reaches(disk, t, g) && Parses(disk, g) && name in BackendNames(disk[g].decls);
        ReachesThrough(disk, f, t, g);
      }
    }
  }

  lemma {:induction false} InlinedNames(disk: Disk, f: FilePath, open: set<FilePath>, name: string)
    requires Inline(ParsedFiles(disk), f, open).Some?
    ensures name in BackendNames(Inline(ParsedFiles(disk), f, open).value) <==> DeclaredBelow(disk, f, name)
    decreases ParsedFiles(disk).Keys - open, 0
  {
    InlinedNamesAll(disk, disk[f].decls, open + {f}, name);
    BelowIsInOrUnder(disk, f, name);
  }

  lemma {:induction false} InlinedNamesAll(disk: Disk, decls: seq<Decl>, open: set<FilePath>, name: string)
    requires InlineAll(ParsedFiles(disk), decls, open).Some?
    ensures name in BackendNames(InlineAll(ParsedFiles(disk), decls, open).value) <==> DeclaredIn(disk, decls, name)
    decreases ParsedFiles(disk).Keys - open, |decls| + 1
  {
    if decls != [] {
      var d, rest := decls[0], decls[1..];
      var others := InlineAll(ParsedFiles(disk), rest, open).value;
      InlinedNamesAll(disk, rest, open, name);
      assert decls == [d] + rest;
      NamesConcat([d], rest);
      if d.Include? {
        var first := Inline(ParsedFiles(disk), d.target, open).value;
        InlinedNames(disk, d.target, open, name);
        NamesConcat(first, others);
        assert IncludesOf(decls) == [d.target] + IncludesOf(rest);
      } else {
        NamesConcat([d], others);
        assert IncludesOf(decls) == IncludesOf(rest);
      }
    }
  }

  // ---------------------------------------------------------------- which programs inline

  /** No include path from the file visits a file twice or comes to one that cannot be read and parsed. */
  ghost predicate Inlinable(disk: Disk, f: FilePath) {
    forall p :: IncludePath(disk, p) && p[0] == f ==> Distinct(p) && Parses(disk, p[|p| - 1])
  }

  lemma {:induction false} InlinedPart(files: Files, decls: seq<Decl>, open: set<FilePath>, t: FilePath)
    requires InlineAll(files, decls, open).Some? && t in IncludesOf(decls)
    ensures Inline(files, t, open).Some?
    decreases |decls|
  {
    if !(decls[0].Include? && decls[0].target == t) {
      InlinedPart(files, decls[1..], open, t);
    }
  }

  lemma {:induction false} PartsInline(files: Files, decls: seq<Decl>, open: set<FilePath>)
    requires forall t :: t in IncludesOf(decls) ==> Inline(files, t, open).Some?
    ensures InlineAll(files, decls, open).Some?
    decreases |decls|
  {
    if decls != [] {
      PartsInline(files, decls[1..], open);
      if decls[0].Include? {
        assert decls[0].target in IncludesOf(decls);
      }
    }
  }

  /** Every include path from a file that inlines is simple, parses and avoids the files open above it. */
  lemma {:induction false} InlinedPath(disk: Disk, f: FilePath, open: set<FilePath>, p: seq<FilePath>)
    requires Inline(ParsedFiles(disk), f, open).Some?
    requires IncludePath(disk, p) && p[0] == f
    ensures Distinct(p) && Parses(disk, p[|p| - 1]) && forall i :: 0 <= i < |p| ==> p[i] !in open
    decreases |p|
  {
    if |p| > 1 {
      var rest := p[1..];
      PathTail(disk, p);
      InlinedPart(ParsedFiles(disk), disk[f].decls, open + {f}, p[1]);
      InlinedPath(disk, p[1], open + {f}, rest);
      assert forall i :: 1 <= i < |p| ==> p[i] == rest[i - 1];
    }
  }

  /** The files open while the last file of an include path is inlined. */
  function Above(s: seq<FilePath>): set<FilePath>
    requires s != []
  {
    set i | 0 <= i < |s| - 1 :: s[i]
  }

  lemma {:induction false} PathInlines(disk: Disk, main: FilePath, s: seq<FilePath>, open: set<FilePath>)
    requires Inlinable(disk, main) && IncludePath(disk, s) && s[0] == main && open == Above(s)
    ensures Inline(ParsedFiles(disk), s[|s| - 1], open).Some?
    decreases ParsedFiles(disk).Keys - open
  {
    var f := s[|s| - 1];
    assert Distinct(s) && Parses(disk, f);
    assert f !in open;
    forall t | t in Targets(disk, f) ensures Inline(ParsedFiles(disk), t, open + {f}).Some? {
      var r := s + [t];
      PathMore(disk, s, t);
      AboveMore(s, t);
      assert r[0] == main && r[|r| - 1] == t;
      PathInlines(disk, main, r, open + {f});
    }
    PartsInline(ParsedFiles(disk), disk[f].decls, open + {f});
  }

  lemma AboveMore(s: seq<FilePath>, t: FilePath)
    requires s != []
    ensures Above(s + [t]) == Above(s) + {s[|s| - 1]}
  {
    var r := s + [t];
    forall f | f in Above(s) + {s[|s| - 1]} ensures f in Above(r) {
      var i :| 0 <= i < |s| && s[i] == f;
      assert r[i] == f;
    }
  }

  /** Exactly which include graphs inline: those whose include paths from the main file are simple and parse. */
  lemma InlinesExactlyWhen(disk: Disk, main: FilePath)
    ensures Inline(ParsedFiles(disk), main, {}).Some? <==> Inlinable(disk, main)
  {
    if Inline(ParsedFiles(disk), main, {}).Some? {
      forall p | IncludePath(disk, p) && p[0] == main ensures Distinct(p) && Parses(disk, p[|p| - 1]) {
        InlinedPath(disk, main, {}, p);
      }
    }
    if Inlinable(disk, main) {
      assert Above([main]) == {};
      PathInlines(disk, main, [main], {});
    }
  }

  // ---------------------------------------------------------------- the walker's output inlined

  /** The files the walker writes out, by path. */
  function Output(processed: seq<Processed>): Files {
    if processed == [] then map[]
    else
      var last := processed[|processed| - 1];
      Output(processed[..|processed| - 1])[last.path := last.content]
  }

  lemma {:induction false} OutputHolds(processed: seq<Processed>, i: nat)
    requires i < |processed| && Distinct(Paths(processed))
    ensures processed[i].path in Output(processed) && Output(processed)[processed[i].path] == processed[i].content
    decreases |processed|
  {
    var init := processed[..|processed| - 1];
    assert forall k :: 0 <= k < |processed| ==> Paths(processed)[k] == processed[k].path;
    if i < |init| {
      assert Paths(processed)[i] != Paths(processed)[|init|];
      assert Paths(init) == Paths(processed)[..|init|];
      OutputHolds(init, i);
    }
  }

  lemma {:induction false} IncludesKept(decls: seq<Decl>, addresses: Addresses)
    ensures IncludesOf(Rewrite(decls, addresses)) == IncludesOf(decls)
    decreases |decls|
  {
    if decls != [] {
      assert Rewrite(decls, addresses)[1..] == Rewrite(decls[1..], addresses);
      IncludesKept(decls[1..], addresses);
    }
  }

  lemma OutputAgrees(disk: Disk, addresses: Addresses, main: FilePath)
    requires Walk(disk, addresses, START, main).outcome.Done?
    ensures var st := Walk(disk, addresses, START, main).state;
            main in st.visited && AgreeOn(Output(st.processed), RewriteFiles(ParsedFiles(disk), addresses), st.visited)
  {
    var st := Walk(disk, addresses, START, main).state;
    WalkOutputsReachable(disk, addresses, main);
    WalkCloses(disk, addresses, START, main);
    var output, rewritten := Output(st.processed), RewriteFiles(ParsedFiles(disk), addresses);
    forall f | f in st.visited
      ensures f in output && f in rewritten && output[f] == rewritten[f]
      ensures forall t :: t in IncludesOf(output[f]) ==> t in st.visited
    {
      var i :| 0 <= i < |st.processed| && Paths(st.processed)[i] == f;
      OutputHolds(st.processed, i);
      IncludesKept(disk[f].decls, addresses);
      assert output[f] == Rewrite(disk[f].decls, addresses);
      assert forall t :: t in Targets(disk, f) ==> t in st.visited;
    }
  }

  /** For every walk that succeeds, files included several times among them: the walker's output, inlined from the
      main file, is the rewriting of the inlined original; there is such a program exactly when no include path comes
      back to a file; and then the names collected are those of the inlined original. */
  lemma WalkerOutputInlines(disk: Disk, addresses: Addresses, main: FilePath)
    requires Walk(disk, addresses, START, main).outcome.Done?
    ensures var st, whole := Walk(disk, addresses, START, main).state, Inline(ParsedFiles(disk), main, {});
            && Inline(Output(st.processed), main, {}) == RewriteResolved(whole, addresses)
            && (whole.Some? <==> forall p :: IncludePath(disk, p) && p[0] == main ==> Distinct(p))
            && (whole.Some? ==> st.backendNames == BackendNames(whole.value))
  {
    var st := Walk(disk, addresses, START, main).state;
    var files := ParsedFiles(disk);
    OutputAgrees(disk, addresses, main);
    InlineAgrees(Output(st.processed), RewriteFiles(files, addresses), st.visited, main, {});
    RewriteCommutes(files, addresses, main, {});
    WalkedParses(disk, addresses, main);
    InlinesExactlyWhen(disk, main);
    if Inline(files, main, {}).Some? {
      WalkedNames(disk, addresses, main);
    }
  }

  /** After a walk that succeeds, only coming back to a file can keep the original from inlining. */
  lemma WalkedParses(disk: Disk, addresses: Addresses, main: FilePath)
    requires Walk(disk, addresses, START, main).outcome.Done?
    ensures Inlinable(disk, main) <==> forall p :: IncludePath(disk, p) && p[0] == main ==> Distinct(p)
  {
    WalkOutputsReachable(disk, addresses, main);
    var st := Walk(disk, addresses, START, main).state;
    forall p | IncludePath(disk, p) && p[0] == main ensures Parses(disk, p[|p| - 1]) {
      assert Reaches(disk, main, p[|p| - 1]);
      var i :| 0 <= i < |st.processed| && Paths(st.processed)[i] == p[|p| - 1];
    }
  }

  lemma WalkedNames(disk: Disk, addresses: Addresses, main: FilePath)
    requires Walk(disk, addresses, START, main).outcome.Done?
    requires Inline(ParsedFiles(disk), main, {}).Some?
    ensures Walk(disk, addresses, START, main).state.backendNames
            == BackendNames(Inline(ParsedFiles(disk), main, {}).value)
  {
    var st := Walk(disk, addresses, START, main).state;
    WalkOutputsReachable(disk, addresses, main);
    forall name ensures name in st.backendNames <==> name in BackendNames(Inline(ParsedFiles(disk), main, {}).value) {
      InlinedNames(disk, main, {}, name);
      if name in st.backendNames {
        var f :| f in st.visited && Parses(disk, f) && name in BackendNames(disk[f].decls);
        assert Reaches(disk, main, f);
      }
      if DeclaredBelow(disk, main, name) {
        var g :| Reaches(disk, main, g) && Parses(disk, g) && name in BackendNames(disk[g].decls);
        assert g in st.visited;
      }
    }
  }
}
