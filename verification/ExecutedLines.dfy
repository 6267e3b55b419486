/** The executed lines of each VCL file (`pkg/recorder/parser.go`) and incremental coverage: reading the log and
    marking blocks in parts is doing both at once. */
module ExecutedLines {
  import opened Common
  import opened Recorder
  import Blocks

  predicate Increasing(lines: seq<int>) {
    forall i, j :: 0 <= i < j < |lines| ==> lines[i] < lines[j]
  }

  predicate Distinct(lines: seq<int>) {
    forall i, j :: 0 <= i < j < |lines| ==> lines[i] != lines[j]
  }

  function Elements(lines: seq<int>): set<int> {
    set line | line in lines
  }

  method Swap(lines: array<int>, i: nat, j: nat)
    requires i < j < lines.Length && Distinct(lines[..])
    modifies lines
    ensures lines[i] == old(lines[j]) && lines[j] == old(lines[i])
    ensures forall k :: 0 <= k < lines.Length && k != i && k != j ==> lines[k] == old(lines[k])
    ensures multiset(lines[..]) == multiset(old(lines[..])) && Distinct(lines[..])
  {
    lines[i], lines[j] := lines[j], lines[i];
    DistinctSwap(old(lines[..]), lines[..], i, j);
  }

  lemma DistinctSwap(before: seq<int>, after: seq<int>, i: nat, j: nat)
    requires Distinct(before) && |after| == |before| && i < j < |before|
    requires after[i] == before[j] && after[j] == before[i]
    requires forall k :: 0 <= k < |before| && k != i && k != j ==> after[k] == before[k]
    ensures Distinct(after)
  {
  }

  /** The first i entries are in place: each is below everything after it. */
  predicate Placed(lines: seq<int>, i: nat) {
    forall p, q :: 0 <= p < i && p < q < |lines| ==> lines[p] < lines[q]
  }

  /** Exchange sort, as the original writes it: every pair out of order is swapped. */
  method ExchangeSort(lines: array<int>)
    requires Distinct(lines[..])
    modifies lines
    ensures Increasing(lines[..])
    ensures multiset(lines[..]) == multiset(old(lines[..]))
  {
    for i := 0 to lines.Length
      invariant Placed(lines[..], i) && Distinct(lines[..])
      invariant multiset(lines[..]) == multiset(old(lines[..]))
    {
      PlaceNext(lines, i);
    }
  }

  /** The inner loop: the least of the entries from i on ends up at i. */
  method PlaceNext(lines: array<int>, i: nat)
    requires i < lines.Length && Placed(lines[..], i) && Distinct(lines[..])
    modifies lines
    ensures Placed(lines[..], i + 1) && Distinct(lines[..])
    ensures multiset(lines[..]) == multiset(old(lines[..]))
  {
    for j := i + 1 to lines.Length
      invariant Placed(lines[..], i) && Distinct(lines[..])
      invariant forall q :: i < q < j ==> lines[i] < lines[q]
      invariant multiset(lines[..]) == multiset(old(lines[..]))
    {
      assert lines[..][i] != lines[..][j];
      if lines[i] > lines[j] {
        PlacedSwap(lines[..], lines[..][i := lines[j]][j := lines[i]], i, j);
        ghost var swapped := lines[..][i := lines[j]][j := lines[i]];
        Swap(lines, i, j);
        assert lines[..] == swapped;
      }
    }
  }

  lemma PlacedSwap(before: seq<int>, after: seq<int>, i: nat, j: nat)
    requires Placed(before, i) && i < j < |before| && after == before[i := before[j]][j := before[i]]
    ensures Placed(after, i)
  {
  }

  lemma SameElements(a: seq<int>, b: seq<int>)
    requires multiset(a) == multiset(b)
    ensures Elements(a) == Elements(b)
  {
    forall x ensures x in a <==> x in b {
      assert x in a <==> x in multiset(a);
      assert x in b <==> x in multiset(b);
    }
  }

  /** The elements of a set, in increasing order. */
  method Sorted(s: set<int>) returns (lines: seq<int>)
    ensures Increasing(lines) && Elements(lines) == s
  {
    var unsorted: seq<int> := [];
    var rest := s;
    while rest != {}
      invariant rest <= s && Elements(unsorted) == s - rest && Distinct(unsorted)
      decreases rest
    {
      var line := Pick(rest);
      assert line !in Elements(unsorted);
      assert Elements(unsorted + [line]) == Elements(unsorted) + {line};
      unsorted := unsorted + [line];
      rest := rest - {line};
    }
    var buffer := new int[|unsorted|](i requires 0 <= i < |unsorted| => unsorted[i]);
    assert buffer[..] == unsorted;
    ExchangeSort(buffer);
    lines := buffer[..];
    SameElements(lines, unsorted);
  }

  /** Exactly the configs of the map that some message traces, each with exactly its traced lines in strictly
      increasing order. */
  ghost predicate Executed(messages: seq<Message>, configMap: map<int, string>, result: map<int, seq<int>>) {
    && (forall config :: config in result <==> config in configMap && TracedLines(messages, config) != {})
    && (forall config :: config in result ==>
                           Increasing(result[config]) && Elements(result[config]) == TracedLines(messages, config))
  }

  predicate Collected(messages: seq<Message>, configMap: map<int, string>, lines: map<int, set<int>>) {
    && (forall config :: config in lines ==> config in configMap && lines[config] == TracedLines(messages, config))
    && (forall config :: config in configMap && config !in lines ==> TracedLines(messages, config) == {})
    && (forall config :: config in lines ==> lines[config] != {})
  }

  lemma TracedByOne(msg: Message, config: int)
    ensures var t := ParseVCLTrace(msg);
            TracedLines([msg], config) == if t.Some? && t.value.config == config then {t.value.line} else {}
  {
    var t := ParseVCLTrace(msg);
    if t.Some? && t.value.config == config {
      assert [msg][0] == msg;
      assert t.value.line in TracedLines([msg], config);
    }
  }

  /** The lines collected after one more message. */
  function AddTrace(lines: map<int, set<int>>, configMap: map<int, string>, msg: Message): map<int, set<int>> {
    var t := ParseVCLTrace(msg);
    if t.Some? && t.value.config in configMap then
      var config := t.value.config;
      lines[config := (if config in lines then lines[config] else {}) + {t.value.line}]
    else lines
  }

  lemma CollectedNext(messages: seq<Message>, msg: Message, configMap: map<int, string>, lines: map<int, set<int>>)
    requires Collected(messages, configMap, lines)
    ensures Collected(messages + [msg], configMap, AddTrace(lines, configMap, msg))
  {
    forall config
      ensures var t := ParseVCLTrace(msg);
              TracedLines(messages + [msg], config)
              == TracedLines(messages, config)
                 + if t.Some? && t.value.config == config then {t.value.line} else {}
    {
      TracedLinesConcat(messages, [msg], config);
      TracedByOne(msg, config);
    }
  }

  method CollectLines(messages: seq<Message>, configMap: map<int, string>) returns (lines: map<int, set<int>>)
    ensures Collected(messages, configMap, lines)
  {
    lines := map[];
    for i := 0 to |messages|
      invariant Collected(messages[..i], configMap, lines)
    {
      assert messages[..i + 1] == messages[..i] + [messages[i]];
      CollectedNext(messages[..i], messages[i], configMap, lines);
      lines := AddTrace(lines, configMap, messages[i]);
    }
    assert messages[..|messages|] == messages;
  }

  method GetExecutedLinesByConfig(messages: seq<Message>, configMap: map<int, string>)
    returns (result: map<int, seq<int>>)
    ensures Executed(messages, configMap, result)
  {
    var lines := CollectLines(messages, configMap);
    result := map[];
    var rest := lines.Keys;
    while rest != {}
      invariant rest <= lines.Keys && result.Keys == lines.Keys - rest
      invariant forall config :: config in result ==>
                                   Increasing(result[config]) && Elements(result[config]) == lines[config]
      decreases rest
    {
      var config := Pick(rest);
      var sorted := Sorted(lines[config]);
      result := result[config := sorted];
      rest := rest - {config};
    }
  }

  /** The traced lines of config 0, whatever map names the configs. */
  method GetExecutedLines(messages: seq<Message>) returns (lines: seq<int>)
    ensures Increasing(lines) && Elements(lines) == TracedLines(messages, 0)
  {
    var byConfig := GetExecutedLinesByConfig(messages, map[0 := "main"]);
    if 0 in byConfig {
      return byConfig[0];
    }
    return [];
  }

  lemma NoElements(lines: seq<int>)
    ensures lines == [] <==> Elements(lines) == {}
  {
    if lines != [] {
      assert lines[0] in Elements(lines);
    }
  }

  /** A strictly increasing list is determined by its elements. */
  lemma {:induction false} IncreasingUnique(a: seq<int>, b: seq<int>)
    requires Increasing(a) && Increasing(b) && Elements(a) == Elements(b)
    ensures a == b
    decreases |a|
  {
    if a == [] {
      NoElements(b);
    } else {
      assert a[0] in Elements(a);
      var j :| 0 <= j < |b| && b[j] == a[0];
      assert b[0] in Elements(a);
      var i :| 0 <= i < |a| && a[i] == b[0];
      assert a[0] == b[0];
      TailElements(a);
      TailElements(b);
      IncreasingUnique(a[1..], b[1..]);
      assert a == [a[0]] + a[1..] && b == [b[0]] + b[1..];
    }
  }

  lemma TailElements(a: seq<int>)
    requires a != [] && Increasing(a)
    ensures Elements(a[1..]) == Elements(a) - {a[0]}
  {
    forall x ensures x in a[1..] <==> x in a && x != a[0] {
      if x in a && x != a[0] {
        var i :| 0 <= i < |a| && a[i] == x;
        assert a[1..][i - 1] == x;
      }
      if x in a[1..] {
        var i :| 0 <= i < |a[1..]| && a[1..][i] == x;
        assert a[i + 1] == x;
      }
    }
  }

  /** The result is one and the same for any two logs with the same messages, in any order and however often. */
  lemma ExecutedUnique(
    a: seq<Message>, b: seq<Message>, configMap: map<int, string>, ra: map<int, seq<int>>, rb: map<int, seq<int>>)
    requires forall m :: m in a <==> m in b
    requires Executed(a, configMap, ra) && Executed(b, configMap, rb)
    ensures ra == rb
  {
    forall config ensures TracedLines(a, config) == TracedLines(b, config) {
      SameMessagesTrace(a, b, config);
      SameMessagesTrace(b, a, config);
    }
    forall config | config in ra ensures config in rb && ra[config] == rb[config] {
      IncreasingUnique(ra[config], rb[config]);
    }
    forall config ensures config in ra <==> config in rb {
      assert TracedLines(a, config) == TracedLines(b, config);
    }
    assert ra.Keys == rb.Keys;
  }

  lemma SameMessagesTrace(a: seq<Message>, b: seq<Message>, config: int)
    requires forall m :: m in a ==> m in b
    ensures TracedLines(a, config) <= TracedLines(b, config)
  {
    forall line | line in TracedLines(a, config) ensures line in TracedLines(b, config) {
      var i :| 0 <= i < |a| && ParseVCLTrace(a[i]).Some? && ParseVCLTrace(a[i]).value.config == config
               && ParseVCLTrace(a[i]).value.line == line;
      assert a[i] in b;
      var j :| 0 <= j < |b| && b[j] == a[i];
    }
  }

  /** The legacy function answers what the map form has for config 0, under any map that names config 0. */
  lemma LegacyAgrees(messages: seq<Message>, configMap: map<int, string>, byConfig: map<int, seq<int>>, lines: seq<int>)
    requires 0 in configMap && Executed(messages, configMap, byConfig)
    requires Increasing(lines) && Elements(lines) == TracedLines(messages, 0)
    ensures lines == if 0 in byConfig then byConfig[0] else []
  {
    if 0 in byConfig {
      IncreasingUnique(lines, byConfig[0]);
    } else {
      NoElements(lines);
    }
  }

  // ---------------------------------------------------------------- incremental coverage

  /** For any block forest with any prior marks: marking with the lines of a log, and then with those of what was
      logged after a cut at a line boundary, is marking once with the lines of the whole log. */
  lemma IncrementalCoverage(bs: seq<Blocks.Block>, config: int, log: string, more: string)
    requires AtLineBoundary(log)
    ensures Blocks.MarkForest(Blocks.MarkForest(bs, TracedLines(ParseMessages(log), config)),
                              TracedLines(ParseMessages(more), config))
            == Blocks.MarkForest(bs, TracedLines(ParseMessages(log + more), config))
  {
    CutsExactlyAtBoundaries(log);
    assert ParseMessages(log + more) == ParseMessages(log) + ParseMessages(more);
    TracedLinesConcat(ParseMessages(log), ParseMessages(more), config);
    Blocks.MarkForestIncremental(
      bs, TracedLines(ParseMessages(log), config), TracedLines(ParseMessages(more), config));
  }
}
