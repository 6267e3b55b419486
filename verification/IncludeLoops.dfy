/** A chain of files that comes back to one of its own: which of the checks, depth or visited, is met first. */
module IncludeLoops {
  import opened BackendRewrite
  import opened IncludeWalk
  import opened IncludeGraph
  import opened IncludeResolve

  /** Every file includes the next one alone, and the last one includes an earlier one. */
  predicate Loop(disk: Disk, p: seq<FilePath>, back: FilePath) {
    && p != [] && Distinct(p) && back in p
    && (forall i :: 0 <= i < |p| ==> Parses(disk, p[i]))
    && (forall i :: 0 <= i < |p| - 1 ==> Targets(disk, p[i]) == [p[i + 1]])
    && Targets(disk, p[|p| - 1]) == [back]
  }

  /** The i-th file to be included, counting the main file as 0. */
  function Nth(p: seq<FilePath>, back: FilePath, i: nat): FilePath
    requires i <= |p|
  {
    if i < |p| then p[i] else back
  }

  lemma LoopTargets(disk: Disk, p: seq<FilePath>, back: FilePath, i: nat)
    requires Loop(disk, p, back) && i < |p|
    ensures Parses(disk, p[i]) && IncludesOf(disk[p[i]].decls) == [Nth(p, back, i + 1)]
    ensures p[i] !in p[..i]
  {
    assert Targets(disk, p[i]) == [Nth(p, back, i + 1)] by {
      if i < |p| - 1 {
        assert Targets(disk, p[i]) == [p[i + 1]];
      }
    }
  }

  // ---------------------------------------------------------------- the walker

  lemma {:induction false} WalkLoopFrom(
    disk: Disk, addresses: Addresses, p: seq<FilePath>, back: FilePath, st: WalkState, i: nat)
    requires Loop(disk, p, back) && i <= |p| && i <= 10
    requires st.depth == i && forall f :: f in st.visited <==> f in p[..i]
    ensures Walk(disk, addresses, st, Nth(p, back, i)).outcome
            == if |p| < 10 then Outcome.Done else DepthExceeded(Nth(p, back, 10))
    decreases 10 - i
  {
    if i < 10 && i < |p| {
      LoopTargets(disk, p, back, i);
      var decls, next := disk[p[i]].decls, Nth(p, back, i + 1);
      var entered := Enter(st.(visited := st.visited + {p[i]}), addresses, p[i], decls);
      assert p[..i + 1] == p[..i] + [p[i]];
      WalkLoopFrom(disk, addresses, p, back, entered, i + 1);
      assert [next][1..] == [];
      assert WalkAll(disk, addresses, entered, [next]).outcome == Walk(disk, addresses, entered, next).outcome;
    } else if i == |p| {
      assert p[..i] == p;
    }
  }

  /** The walker checks the depth first: a loop of fewer than ten files is walked, a longer one is a depth error at the
      eleventh include, even where that comes back to a file it has visited. */
  lemma WalkOfLoop(disk: Disk, addresses: Addresses, p: seq<FilePath>, back: FilePath)
    requires Loop(disk, p, back)
    ensures |p| < 10 ==> Walk(disk, addresses, START, p[0]).outcome == Outcome.Done
    ensures |p| == 10 ==> Walk(disk, addresses, START, p[0]).outcome == DepthExceeded(back)
    ensures |p| > 10 ==> Walk(disk, addresses, START, p[0]).outcome == DepthExceeded(p[10])
  {
    WalkLoopFrom(disk, addresses, p, back, START, 0);
  }

  // ---------------------------------------------------------------- the resolver

  lemma {:induction false} OneTargetFails(disk: Disk, visited: set<FilePath>, depth: nat, decls: seq<Decl>, t: FilePath)
    requires IncludesOf(decls) == [t] && !Resolve(disk, visited, depth, t).Resolved?
    ensures ResolveAll(disk, visited, depth, decls) == Resolve(disk, visited, depth, t)
    decreases |decls|
  {
    if decls[0].Include? {
      assert IncludesOf(decls)[0] == decls[0].target;
    } else {
      assert IncludesOf(decls) == IncludesOf(decls[1..]);
      OneTargetFails(disk, visited, depth, decls[1..], t);
    }
  }

  lemma {:induction false} ResolveLoopFrom(
    disk: Disk, p: seq<FilePath>, back: FilePath, visited: set<FilePath>, i: nat)
    requires Loop(disk, p, back) && back != p[0] && 1 <= i <= |p| && i <= 11
    requires forall f :: f in visited <==> f in p[1..i]
    ensures Resolve(disk, visited, i - 1, Nth(p, back, i))
            == if |p| <= 10 then IncludedTwice(back) else TooDeep(Nth(p, back, 11))
    decreases 11 - i
  {
    if i < 11 && i < |p| {
      LoopTargets(disk, p, back, i);
      assert p[i] !in p[1..i] by {
        assert forall f :: f in p[1..i] ==> f in p[..i];
      }
      assert p[1..i + 1] == p[1..i] + [p[i]];
      ResolveLoopFrom(disk, p, back, visited + {p[i]}, i + 1);
      OneTargetFails(disk, visited + {p[i]}, i, disk[p[i]].decls, Nth(p, back, i + 1));
    } else if i == |p| {
      var k :| 0 <= k < |p| && p[k] == back;
      assert p[1..i][k - 1] == back;
    }
  }

  /** The resolver checks the depth first as well, one file later: a loop of at most ten files, not through the main
      file, is a file included twice, a longer one is too deep. */
  lemma ResolutionOfLoop(disk: Disk, p: seq<FilePath>, back: FilePath)
    requires Loop(disk, p, back) && StatesVersion(disk, p[0]) && back != p[0]
    ensures |p| <= 10 ==> Expand(disk, p[0]) == IncludedTwice(back)
    ensures |p| == 11 ==> Expand(disk, p[0]) == TooDeep(back)
    ensures |p| > 11 ==> Expand(disk, p[0]) == TooDeep(p[11])
  {
    assert |p| > 1 by {
      var k :| 0 <= k < |p| && p[k] == back;
    }
    LoopTargets(disk, p, back, 0);
    assert p[1..1] == [];
    ResolveLoopFrom(disk, p, back, {}, 1);
    OneTargetFails(disk, {}, 0, disk[p[0]].decls, Nth(p, back, 1));
  }

  /** A loop through the main file: the main file is not marked as visited at first, so it is spliced in once more, and
      what it includes is the file included twice. */
  lemma ResolutionOfMainLoop(disk: Disk, p: seq<FilePath>)
    requires p != [] && Loop(disk, p, p[0]) && StatesVersion(disk, p[0])
    ensures |p| <= 9 ==> Expand(disk, p[0]) == IncludedTwice(if |p| == 1 then p[0] else p[1])
    ensures |p| == 10 ==> Expand(disk, p[0]) == TooDeep(p[1])
    ensures |p| == 11 ==> Expand(disk, p[0]) == TooDeep(p[0])
    ensures |p| > 11 ==> Expand(disk, p[0]) == TooDeep(p[11])
  {
    LoopTargets(disk, p, p[0], 0);
    assert p[1..1] == [];
    MainLoopFrom(disk, p, {}, 1);
    OneTargetFails(disk, {}, 0, disk[p[0]].decls, Nth(p, p[0], 1));
  }

  lemma {:induction false} MainLoopFrom(disk: Disk, p: seq<FilePath>, visited: set<FilePath>, i: nat)
    requires p != [] && Loop(disk, p, p[0]) && 1 <= i <= |p| && i <= 11
    requires forall f :: f in visited <==> f in p[1..i]
    ensures Resolve(disk, visited, i - 1, Nth(p, p[0], i))
            == if |p| <= 9 then IncludedTwice(if |p| == 1 then p[0] else p[1])
               else if |p| == 10 then TooDeep(p[1]) else TooDeep(Nth(p, p[0], 11))
    decreases 11 - i
  {
    if i < 11 && i < |p| {
      LoopTargets(disk, p, p[0], i);
      assert p[i] !in p[1..i] by {
        assert forall f :: f in p[1..i] ==> f in p[..i];
      }
      assert p[1..i + 1] == p[1..i] + [p[i]];
      MainLoopFrom(disk, p, visited + {p[i]}, i + 1);
      OneTargetFails(disk, visited + {p[i]}, i, disk[p[i]].decls, Nth(p, p[0], i + 1));
    } else if i < 11 {
      MainAgain(disk, p, visited);
    }
  }

  lemma MainAgain(disk: Disk, p: seq<FilePath>, visited: set<FilePath>)
    requires p != [] && Loop(disk, p, p[0]) && |p| < 11
    requires forall f :: f in visited <==> f in p[1..]
    ensures Resolve(disk, visited, |p| - 1, p[0])
            == if |p| <= 9 then IncludedTwice(if |p| == 1 then p[0] else p[1]) else TooDeep(p[1])
  {
    assert p[0] !in p[1..];
    LoopTargets(disk, p, p[0], 0);
    if |p| > 1 {
      assert p[1] == p[1..][0];
    }
    OneTargetFails(disk, visited + {p[0]}, |p|, disk[p[0]].decls, Nth(p, p[0], 1));
  }
}
