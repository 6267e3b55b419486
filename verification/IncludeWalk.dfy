/** The include walk of `pkg/vclmod/include_walker.go`: a depth-limited depth-first walk over a possibly cyclic
    include graph that rewrites every file it visits, as the walker performs it and as a function of its state.
    `IncludeGraph` says what it achieves, `SingleParse` compares it with the single-parse form. */
module IncludeWalk {
  import opened Common
  import opened BackendRewrite

  /** What reading and parsing a file gives, a version declaration being optional; a path not on the disk cannot be
      read. */
  datatype Contents = Unparsable | Parsed(decls: seq<Decl>, hasVersion: bool)

  type Disk = map<FilePath, Contents>

  const MAX_INCLUDE_DEPTH := 10

  datatype Processed = Processed(path: FilePath, content: seq<Decl>)

  datatype WalkState = WalkState(
    visited: set<FilePath>,
    processed: seq<Processed>,
    backendNames: set<string>,
    depth: nat)

  datatype Outcome =
    | Done
    | DepthExceeded(at: FilePath)
    | UnreadableFile(path: FilePath)
    | UnparsableFile(path: FilePath)

  datatype Walked = Walked(state: WalkState, outcome: Outcome)

  const START := WalkState({}, [], {}, 0)

  function IncludesOf(decls: seq<Decl>): seq<FilePath> {
    if decls == [] then []
    else (if decls[0].Include? then [decls[0].target] else []) + IncludesOf(decls[1..])
  }

  lemma {:induction false} IncludesConcat(a: seq<Decl>, b: seq<Decl>)
    ensures IncludesOf(a + b) == IncludesOf(a) + IncludesOf(b)
    decreases |a|
  {
    if a == [] {
      assert a + b == b;
    } else {
      assert (a + b)[1..] == a[1..] + b;
      IncludesConcat(a[1..], b);
    }
  }

  /** Every include counts, where it stands. */
  lemma IncludesInOrder(a: seq<Decl>, d: Decl, b: seq<Decl>)
    ensures IncludesOf(a + ([d] + b)) == IncludesOf(a) + ((if d.Include? then [d.target] else []) + IncludesOf(b))
  {
    IncludesConcat(a, [d] + b);
    assert ([d] + b)[1..] == b;
  }

  function BackendNames(decls: seq<Decl>): set<string> {
    set d | d in decls && d.Backend? :: d.name
  }

  function Room(depth: nat): nat {
    if depth < MAX_INCLUDE_DEPTH then MAX_INCLUDE_DEPTH - depth else 0
  }

  // ---------------------------------------------------------------- the walk as a function of its state

  /** Terminates on every include graph: the depth limit is the measure. */
  function Walk(disk: Disk, addresses: Addresses, st: WalkState, path: FilePath): (w: Walked)
    ensures w.outcome.Done? ==> w.state.depth == st.depth
    decreases Room(st.depth), 0
  {
    if st.depth >= MAX_INCLUDE_DEPTH then Walked(st, DepthExceeded(path))
    else if path in st.visited then Walked(st, Done)
    else
      var st := st.(visited := st.visited + {path});
      if path !in disk then Walked(st, UnreadableFile(path))
      else
        match disk[path]
        case Unparsable => Walked(st, UnparsableFile(path))
        case Parsed(decls, _) =>
          var w := WalkAll(disk, addresses, Enter(st, addresses, path, decls), IncludesOf(decls));
          if w.outcome.Done? then Walked(w.state.(depth := w.state.depth - 1), Done) else w
  }

  /** The state while the includes of a file are walked: the file is already processed. */
  function Enter(st: WalkState, addresses: Addresses, path: FilePath, decls: seq<Decl>): WalkState {
    st.(processed := st.processed + [Processed(path, Rewrite(decls, addresses))],
        backendNames := st.backendNames + BackendNames(decls),
        depth := st.depth + 1)
  }

  function WalkAll(disk: Disk, addresses: Addresses, st: WalkState, targets: seq<FilePath>): (w: Walked)
    ensures w.outcome.Done? ==> w.state.depth == st.depth
    decreases Room(st.depth), |targets| + 1
  {
    if targets == [] then Walked(st, Done)
    else
      var w := Walk(disk, addresses, st, targets[0]);
      if w.outcome.Done? then WalkAll(disk, addresses, w.state, targets[1..]) else w
  }

  // ---------------------------------------------------------------- the walk as the walker performs it

  class IncludeWalker {
    const disk: Disk
    const addresses: Addresses
    var visitedFiles: set<FilePath>
    var processedFiles: seq<Processed>
    var vclBackends: map<string, bool>
    var includeDepth: nat

    constructor (disk: Disk, addresses: Addresses)
      ensures this.disk == disk && this.addresses == addresses
      ensures State() == START && vclBackends == map[]
    {
      this.disk, this.addresses := disk, addresses;
      visitedFiles, processedFiles, vclBackends, includeDepth := {}, [], map[], 0;
    }

    ghost function State(): WalkState
      reads this
    {
      WalkState(visitedFiles, processedFiles, vclBackends.Keys, includeDepth)
    }

    /** While walking no backend is marked as used yet. */
    ghost predicate NoneUsed()
      reads this
    {
      forall name :: name in vclBackends ==> !vclBackends[name]
    }

    method WalkFile(path: FilePath) returns (outcome: Outcome)
      requires NoneUsed()
      modifies this
      ensures Walked(State(), outcome) == Walk(disk, addresses, old(State()), path)
      ensures NoneUsed()
      decreases Room(includeDepth)
    {
      if includeDepth >= MAX_INCLUDE_DEPTH {
        return DepthExceeded(path);
      }
      if path in visitedFiles {
        return Done;
      }
      visitedFiles := visitedFiles + {path};
      if path !in disk {
        return UnreadableFile(path);
      }
      if disk[path].Unparsable? {
        return UnparsableFile(path);
      }
      var decls := disk[path].decls;
      vclBackends := CollectNames(decls, vclBackends);
      var program := new Program(decls);
      program.ModifyBackends(addresses);
      processedFiles := processedFiles + [Processed(path, program.declarations)];
      includeDepth := includeDepth + 1;
      ghost var entered := Enter(old(State()).(visited := visitedFiles), addresses, path, decls);
      assert State() == entered;
      for i := 0 to |decls|
        invariant includeDepth == old(includeDepth) + 1
        invariant NoneUsed()
        invariant WalkAll(disk, addresses, State(), IncludesOf(decls[i..]))
               == WalkAll(disk, addresses, entered, IncludesOf(decls))
      {
        assert decls[i..][1..] == decls[i + 1..];
        if decls[i].Include? {
          assert IncludesOf(decls[i..])[1..] == IncludesOf(decls[i + 1..]);
          outcome := WalkFile(decls[i].target);
          if !outcome.Done? {
            return;
          }
        } else {
          assert IncludesOf(decls[i..]) == IncludesOf(decls[i + 1..]);
        }
      }
      assert decls[|decls|..] == [];
      includeDepth := includeDepth - 1;
      return Done;
    }

    method ValidateBackends() returns (errors: seq<string>, warnings: seq<string>)
      requires NoneUsed()
      modifies this`vclBackends
      ensures vclBackends.Keys == old(vclBackends.Keys)
      ensures Lists(errors, addresses.Keys - vclBackends.Keys)
      ensures Lists(warnings, vclBackends.Keys - addresses.Keys)
    {
      errors, warnings, vclBackends := CheckNames(addresses, vclBackends);
    }
  }

  /** Record the backends a file declares, none of them used by the test file yet. */
  method CollectNames(decls: seq<Decl>, before: map<string, bool>) returns (names: map<string, bool>)
    requires forall name :: name in before ==> !before[name]
    ensures names.Keys == before.Keys + BackendNames(decls)
    ensures forall name :: name in names ==> !names[name]
  {
    names := before;
    for i := 0 to |decls|
      invariant names.Keys == before.Keys + BackendNames(decls[..i])
      invariant forall name :: name in names ==> !names[name]
    {
      assert decls[..i + 1] == decls[..i] + [decls[i]];
      NamesConcat(decls[..i], [decls[i]]);
      if decls[i].Backend? {
        names := names[decls[i].name := false];
      }
    }
    assert decls[..|decls|] == decls;
  }

  /** Names of the test file that no VCL file declares are errors; declared names the test file does not
      override are warnings.  Each is reported once, in no particular order. */
  method CheckNames(addresses: Addresses, declared: map<string, bool>)
    returns (errors: seq<string>, warnings: seq<string>, used: map<string, bool>)
    requires forall name :: name in declared ==> !declared[name]
    ensures used.Keys == declared.Keys
    ensures Lists(errors, addresses.Keys - declared.Keys)
    ensures Lists(warnings, declared.Keys - addresses.Keys)
  {
    errors, warnings, used := [], [], declared;
    var rest := addresses.Keys;
    while rest != {}
      invariant rest <= addresses.Keys
      invariant used.Keys == declared.Keys
      invariant Lists(errors, addresses.Keys - rest - used.Keys)
      invariant forall name :: name in used ==> used[name] == (name in addresses.Keys - rest)
      decreases rest
    {
      var name := Pick(rest);
      ghost var seen := addresses.Keys - rest;
      rest := rest - {name};
      assert addresses.Keys - rest == seen + {name};
      if name !in used {
        ListsMore(errors, seen - used.Keys, name);
        assert seen + {name} - used.Keys == seen - used.Keys + {name};
        errors := errors + [name];
      } else {
        assert seen + {name} - used.Keys == seen - used.Keys;
        used := used[name := true];
      }
    }
    assert addresses.Keys - {} == addresses.Keys;
    rest := used.Keys;
    while rest != {}
      invariant rest <= used.Keys
      invariant Lists(warnings, used.Keys - rest - addresses.Keys)
      decreases rest
    {
      var name := Pick(rest);
      ghost var seen := used.Keys - rest;
      rest := rest - {name};
      assert used.Keys - rest == seen + {name};
      if !used[name] {
        ListsMore(warnings, seen - addresses.Keys, name);
        assert seen + {name} - addresses.Keys == seen - addresses.Keys + {name};
        warnings := warnings + [name];
      } else {
        assert seen + {name} - addresses.Keys == seen - addresses.Keys;
      }
    }
  }

  /** The list names every element of the set once and nothing else. */
  predicate Lists(names: seq<string>, s: set<string>) {
    && (forall i, j :: 0 <= i < j < |names| ==> names[i] != names[j])
    && (forall name :: name in names ==> name in s)
    && (forall name :: name in s ==> name in names)
  }

  lemma ListsNothing(errors: seq<string>, all: set<string>, known: set<string>)
    requires Lists(errors, all - known) && |errors| == 0
    ensures all <= known
  {
    assert all - known == {};
    assert all <= (all - known) + known;
  }

  lemma ListsMore(names: seq<string>, s: set<string>, name: string)
    requires Lists(names, s) && name !in s
    ensures Lists(names + [name], s + {name})
  {
  }

  lemma NamesConcat(a: seq<Decl>, b: seq<Decl>)
    ensures BackendNames(a + b) == BackendNames(a) + BackendNames(b)
  {
    forall n | n in BackendNames(a) + BackendNames(b) ensures n in BackendNames(a + b) {
      if n in BackendNames(a) {
        var d :| d in a && d.Backend? && d.name == n;
        assert d in a + b;
      } else {
        var d :| d in b && d.Backend? && d.name == n;
        assert d in a + b;
      }
    }
  }
}
