/** The varnishlog recorder (`pkg/recorder`): parsing the log, reading it from a marked position, and the executed
    lines of each VCL file. */
module Recorder {
  import opened Common
  import opened Text

  datatype Kind =
    | VCLTrace | VCLCall | VCLReturn | BackendOpen | ReqURL | RespStatus | ReqHeader | RespHeader | Other

  datatype Message = Message(kind: Kind, fields: seq<string>, content: string, raw: string)

  // ---------------------------------------------------------------- parsing the log

  function KindOf(word: string): Kind {
    if word == "VCL_trace" then VCLTrace
    else if word == "VCL_call" then VCLCall
    else if word == "VCL_return" then VCLReturn
    else if word == "BackendOpen" then BackendOpen
    else if word == "ReqURL" then ReqURL
    else if word == "RespStatus" then RespStatus
    else if word == "ReqHeader" then ReqHeader
    else if word == "RespHeader" then RespHeader
    else Other
  }

  function ContentOf(kind: Kind, fields: seq<string>): string {
    match kind
    case VCLTrace => if |fields| >= 5 then Join(fields[2..], " ") else ""
    case BackendOpen => if |fields| >= 3 then Join(fields[2..], " ") else ""
    case ReqHeader => if |fields| >= 3 then Join(fields[2..], " ") else ""
    case RespHeader => if |fields| >= 3 then Join(fields[2..], " ") else ""
    case Other => ""
    case _ => if |fields| >= 3 then fields[2] else ""
  }

  function ParseLine(line: string): Message {
    var fields := Fields(line);
    if |fields| < 2 then Message(Other, [], "", line)
    else
      var kind := KindOf(fields[1]);
      Message(kind, fields, ContentOf(kind, fields), line)
  }

  /** The message of one line; empty lines and lines of no interest have none. */
  function LineMessages(line: string): seq<Message> {
    if line == "" || ParseLine(line).kind.Other? then [] else [ParseLine(line)]
  }

  /** The messages of a list of lines, for any way of reading one. */
  function MessagesWith(read: string -> seq<Message>, lines: seq<string>): seq<Message> {
    if lines == [] then [] else read(lines[0]) + MessagesWith(read, lines[1..])
  }

  function ParseWith(read: string -> seq<Message>, output: string): seq<Message> {
    MessagesWith(read, Split(output, '\n'))
  }

  function ParseMessages(output: string): seq<Message> {
    ParseWith(LineMessages, output)
  }

  method CollectMessages(read: string -> seq<Message>, output: string) returns (messages: seq<Message>)
    ensures messages == ParseWith(read, output)
  {
    var lines := Split(output, '\n');
    messages := [];
    for i := 0 to |lines|
      invariant messages + MessagesWith(read, lines[i..]) == MessagesWith(read, lines)
    {
      assert lines[i..][1..] == lines[i + 1..];
      messages := messages + read(lines[i]);
    }
    assert lines[|lines|..] == [];
  }

  /** The log file as the recorder sees it: Varnish appends, the recorder marks positions and reads. */
  class Recorder {
    var log: string

    constructor ()
      ensures log == ""
    {
      log := "";
    }

    method Append(more: string)
      modifies this
      ensures log == old(log) + more
    {
      log := log + more;
    }

    method MarkPosition() returns (offset: nat)
      ensures offset == |log|
    {
      offset := |log|;
    }

    /** Reading from past the end of the file finds nothing. */
    method GetMessagesSince(offset: nat) returns (messages: seq<Message>)
      ensures messages == ParseMessages(if offset <= |log| then log[offset..] else "")
    {
      messages := CollectMessages(LineMessages, if offset <= |log| then log[offset..] else "");
    }
  }

  // ---------------------------------------------------------------- reading the log in parts

  predicate AtLineBoundary(log: string) {
    log == "" || log[|log| - 1] == '\n'
  }

  lemma {:induction false} MessagesConcat(read: string -> seq<Message>, a: seq<string>, b: seq<string>)
    ensures MessagesWith(read, a + b) == MessagesWith(read, a) + MessagesWith(read, b)
    decreases |a|
  {
    if a == [] {
      assert a + b == b;
    } else {
      assert (a + b)[1..] == a[1..] + b;
      MessagesConcat(read, a[1..], b);
    }
  }

  lemma MessagesOne(read: string -> seq<Message>, line: string, rest: seq<string>)
    ensures MessagesWith(read, [line] + rest) == read(line) + MessagesWith(read, rest)
    ensures MessagesWith(read, [line]) == read(line)
  {
    assert ([line] + rest)[1..] == rest && [line][1..] == [];
  }

  /** Lines of two texts put together: the last line of one continues in the first of the other. */
  function Glue(a: seq<string>, b: seq<string>): seq<string>
    requires a != [] && b != []
  {
    a[..|a| - 1] + [a[|a| - 1] + b[0]] + b[1..]
  }

  lemma GlueAfter(x: string, a: seq<string>, b: seq<string>)
    requires a != [] && b != []
    ensures Glue([x] + a, b) == [x] + Glue(a, b)
  {
  }

  lemma GlueHead(c: char, a: seq<string>, b: seq<string>)
    requires a != [] && b != []
    ensures var glued := Glue(a, b);
            Glue([[c] + a[0]] + a[1..], b) == [[c] + glued[0]] + glued[1..]
  {
    if |a| == 1 {
      assert [c] + a[0] + b[0] == [c] + (a[0] + b[0]);
    }
  }

  lemma {:induction false} SplitConcat(a: string, b: string)
    ensures Split(a + b, '\n') == Glue(Split(a, '\n'), Split(b, '\n'))
    decreases |a|
  {
    var lines := Split(b, '\n');
    if a == [] {
      assert a + b == b;
      assert "" + lines[0] == lines[0];
    } else {
      assert (a + b)[1..] == a[1..] + b;
      SplitConcat(a[1..], b);
      var rest := Split(a[1..], '\n');
      if a[0] == '\n' {
        GlueAfter("", rest, lines);
      } else {
        GlueHead(a[0], rest, lines);
      }
    }
  }

  /** The unfinished last line of a log: empty exactly at a line boundary. */
  function Unfinished(log: string): string {
    var lines := Split(log, '\n');
    lines[|lines| - 1]
  }

  function Finished(log: string): seq<string> {
    var lines := Split(log, '\n');
    lines[..|lines| - 1]
  }

  lemma {:induction false} UnfinishedAtBoundary(log: string)
    ensures Unfinished(log) == "" <==> AtLineBoundary(log)
    decreases |log|
  {
    if log != "" {
      UnfinishedAtBoundary(log[1..]);
      if |log| > 1 {
        assert log[1..][|log[1..]| - 1] == log[|log| - 1];
      }
    }
  }

  lemma MessagesOfLog(read: string -> seq<Message>, log: string)
    ensures ParseWith(read, log) == MessagesWith(read, Finished(log)) + read(Unfinished(log))
  {
    assert Split(log, '\n') == Finished(log) + [Unfinished(log)];
    MessagesConcat(read, Finished(log), [Unfinished(log)]);
    MessagesOne(read, Unfinished(log), []);
  }

  lemma MessagesOfGlued(read: string -> seq<Message>, a: seq<string>, b: seq<string>)
    requires a != [] && b != []
    ensures MessagesWith(read, Glue(a, b))
            == MessagesWith(read, a[..|a| - 1]) + (read(a[|a| - 1] + b[0]) + MessagesWith(read, b[1..]))
  {
    var joined := [a[|a| - 1] + b[0]] + b[1..];
    assert Glue(a, b) == a[..|a| - 1] + joined;
    MessagesConcat(read, a[..|a| - 1], joined);
    MessagesOne(read, a[|a| - 1] + b[0], b[1..]);
  }

  lemma MessagesOfMore(read: string -> seq<Message>, log: string, more: string)
    ensures var lines := Split(more, '\n');
            ParseWith(read, log + more)
            == MessagesWith(read, Finished(log))
               + (read(Unfinished(log) + lines[0]) + MessagesWith(read, lines[1..]))
  {
    SplitConcat(log, more);
    MessagesOfGlued(read, Split(log, '\n'), Split(more, '\n'));
  }

  lemma PartsAddUpWith(read: string -> seq<Message>, log: string, more: string)
    requires AtLineBoundary(log) && read("") == []
    ensures ParseWith(read, log + more) == ParseWith(read, log) + ParseWith(read, more)
  {
    MessagesOfLog(read, log);
    MessagesOfMore(read, log, more);
    UnfinishedAtBoundary(log);
    var lines := Split(more, '\n');
    assert "" + lines[0] == lines[0];
    assert lines == [lines[0]] + lines[1..];
    MessagesOne(read, lines[0], lines[1..]);
  }

  /** Away from a line boundary a one-line continuation that is a message of its own gets lost or changed. */
  lemma PartsDisagreeWith(read: string -> seq<Message>, log: string, more: string)
    requires !AtLineBoundary(log) && OneLine(more)
    requires |read(more)| == 1 && read(more)[0].raw == more
    requires var line := Unfinished(log) + more; |read(line)| <= 1 && (read(line) != [] ==> read(line)[0].raw == line)
    ensures ParseWith(read, log + more) != ParseWith(read, log) + ParseWith(read, more)
  {
    MessagesOfLog(read, log);
    MessagesOfMore(read, log, more);
    UnfinishedAtBoundary(log);
    SplitNone(more, '\n');
    MessagesOne(read, more, []);
    var line := Unfinished(log) + more;
    assert [more][1..] == [] && MessagesWith(read, []) == [];
    var finished := MessagesWith(read, Finished(log));
    assert ParseWith(read, log + more) == finished + read(line);
    EndsDiffer(finished, read(line), read(Unfinished(log)), read(more)[0]);
  }

  lemma EndsDiffer(before: seq<Message>, whole: seq<Message>, first: seq<Message>, last: Message)
    requires |whole| <= 1 && (whole != [] ==> |whole[0].raw| > |last.raw|)
    ensures before + whole != before + first + [last]
  {
    var parts := before + first + [last];
    assert parts[|parts| - 1] == last;
    assert whole != [] ==> (before + whole)[|before + whole| - 1] == whole[0];
  }

  const TRACE_LINE := "-" + (" " + "VCL_trace")

  lemma TraceLineFields()
    ensures Fields(TRACE_LINE) == ["-", "VCL_trace"]
  {
    TwoFields("-", "VCL_trace");
  }

  lemma TwoFields(a: string, b: string)
    requires Word(a) && Word(b)
    ensures Fields(a + (" " + b)) == [a, b]
  {
    assert b + "" == b;
    FieldsWord(b, "");
    FieldsPadding(" ", b);
    FieldsWord(a, " " + b);
  }

  lemma TraceLineIsTraced()
    ensures LineMessages(TRACE_LINE) == [ParseLine(TRACE_LINE)] && ParseLine(TRACE_LINE).raw == TRACE_LINE
  {
    TraceLineFields();
  }

  lemma LineMessagesShape(line: string)
    ensures |LineMessages(line)| <= 1 && (LineMessages(line) != [] ==> LineMessages(line)[0].raw == line)
    ensures LineMessages("") == []
  {
  }

  /** Cutting a log is harmless exactly at line boundaries: there, whatever is logged next, the messages of the
      whole are the messages of the parts; anywhere else some continuation is misread. */
  lemma CutsExactlyAtBoundaries(log: string)
    ensures AtLineBoundary(log)
            <==> forall more :: ParseMessages(log + more) == ParseMessages(log) + ParseMessages(more)
  {
    LineMessagesShape("");
    if AtLineBoundary(log) {
      forall more ensures ParseMessages(log + more) == ParseMessages(log) + ParseMessages(more) {
        PartsAddUpWith(LineMessages, log, more);
      }
    } else {
      TraceLineIsTraced();
      LineMessagesShape(Unfinished(log) + TRACE_LINE);
      PartsDisagreeWith(LineMessages, log, TRACE_LINE);
    }
  }

  // ---------------------------------------------------------------- what a line of the log says

  /** The kinds are told apart by their tags. */
  lemma KindsByTag(tag: string)
    ensures (tag == "VCL_trace" <==> KindOf(tag) == VCLTrace) && (tag == "VCL_call" <==> KindOf(tag) == VCLCall)
    ensures (tag == "VCL_return" <==> KindOf(tag) == VCLReturn)
    ensures (tag == "BackendOpen" <==> KindOf(tag) == BackendOpen)
    ensures (tag == "ReqURL" <==> KindOf(tag) == ReqURL) && (tag == "RespStatus" <==> KindOf(tag) == RespStatus)
    ensures (tag == "ReqHeader" <==> KindOf(tag) == ReqHeader) && (tag == "RespHeader" <==> KindOf(tag) == RespHeader)
  {
  }

  /** Traces and headers keep all that follows the tag, calls, returns, URLs and statuses the first word of it. */
  predicate Content(kind: Kind, rest: seq<string>, content: string) {
    match kind
    case VCLTrace => content == if |rest| < 3 then "" else Join(rest, " ")
    case BackendOpen => content == Join(rest, " ")
    case ReqHeader => content == Join(rest, " ")
    case RespHeader => content == Join(rest, " ")
    case Other => content == ""
    case _ => content == if rest == [] then "" else rest[0]
  }

  /** Every line of at least two words is read by its second word, the tag, whatever the blanks, and dropped if the
      tag is none of interest. */
  lemma LineByTag(s: Spaced, lead: string, tag: string, rest: seq<string>)
    requires Proper(s) && SpacedWords(s) == [lead, tag] + rest
    ensures var m := ParseLine(Spelled(s));
            && m.raw == Spelled(s) && m.fields == SpacedWords(s)
            && m.kind == KindOf(tag) && Content(m.kind, rest, m.content)
            && LineMessages(Spelled(s)) == if m.kind == Other then [] else [m]
  {
    FieldsAreWords(s);
    var fields := SpacedWords(s);
    assert fields[2..] == rest && fields[1] == tag;
    assert rest != [] ==> fields[2] == rest[0];
    assert Fields("") == [];
  }

  /** Lines of fewer than two words are dropped. */
  lemma ShortLineDropped(s: Spaced)
    requires Proper(s) && |SpacedWords(s)| < 2
    ensures LineMessages(Spelled(s)) == []
  {
    FieldsAreWords(s);
  }

  // ---------------------------------------------------------------- traced lines

  datatype Trace = Trace(vclName: string, traceID: string, config: int, line: int, column: int)

  /** Fields `- VCL_trace name id config.line.column`. */
  function ParseVCLTrace(msg: Message): Option<Trace> {
    if !msg.kind.VCLTrace? || |msg.fields| < 5 then None
    else
      var parts := Split(msg.fields[4], '.');
      if |parts| != 3 then None
      else
        var config, line, column := Atoi(parts[0]), Atoi(parts[1]), Atoi(parts[2]);
        if config.None? || line.None? || column.None? then None
        else Some(Trace(msg.fields[2], msg.fields[3], config.value, line.value, column.value))
  }

  /** A trace as varnishlog prints it: any leading blanks, then the fields. */
  function PrintTrace(blanks: string, t: Trace): string
    requires t.config >= 0 && t.line >= 0 && t.column >= 0
  {
    blanks + ("-" + " " + ("VCL_trace" + " " + (t.vclName + " " + (t.traceID + " " + PrintLocation(t)))))
  }

  function PrintLocation(t: Trace): string
    requires t.config >= 0 && t.line >= 0 && t.column >= 0
  {
    Decimal(t.config) + "." + (Decimal(t.line) + "." + Decimal(t.column))
  }

  lemma DigitsOnly(n: nat, c: char)
    requires !IsDigit(c)
    ensures c !in Decimal(n) && Word(Decimal(n))
  {
    DecimalRoundTrip(n);
    DigitsAreNotSpace(Decimal(n));
  }

  lemma LocationSplits(t: Trace)
    requires t.config >= 0 && t.line >= 0 && t.column >= 0
    ensures Split(PrintLocation(t), '.') == [Decimal(t.config), Decimal(t.line), Decimal(t.column)]
    ensures Word(PrintLocation(t))
  {
    DigitsOnly(t.config, '.');
    DigitsOnly(t.line, '.');
    DigitsOnly(t.column, '.');
    SplitNone(Decimal(t.column), '.');
    SplitFirst(Decimal(t.line), Decimal(t.column), '.');
    SplitFirst(Decimal(t.config), Decimal(t.line) + "." + Decimal(t.column), '.');
    assert Decimal(t.line) + "." + Decimal(t.column) == Decimal(t.line) + ['.'] + Decimal(t.column);
    assert PrintLocation(t) == Decimal(t.config) + ['.'] + (Decimal(t.line) + "." + Decimal(t.column));
  }

  lemma FieldThen(word: string, rest: string)
    requires Word(word)
    ensures Fields(word + " " + rest) == [word] + Fields(rest)
  {
    assert word + " " + rest == word + (" " + rest);
    FieldsWord(word, " " + rest);
    FieldsPadding(" ", rest);
  }

  /** Four words, then one that ends the line. */
  lemma FiveFields(a: string, b: string, c: string, d: string, e: string)
    requires Word(a) && Word(b) && Word(c) && Word(d) && Word(e)
    ensures Fields(a + " " + (b + " " + (c + " " + (d + " " + e)))) == [a, b, c, d, e]
  {
    assert e + "" == e;
    FieldsWord(e, "");
    FieldThen(d, e);
    FieldThen(c, d + " " + e);
    FieldThen(b, c + " " + (d + " " + e));
    FieldThen(a, b + " " + (c + " " + (d + " " + e)));
  }

  lemma TraceFields(blanks: string, t: Trace)
    requires AllSpace(blanks) && Word(t.vclName) && Word(t.traceID)
    requires t.config >= 0 && t.line >= 0 && t.column >= 0
    ensures Fields(PrintTrace(blanks, t)) == ["-", "VCL_trace", t.vclName, t.traceID, PrintLocation(t)]
  {
    LocationSplits(t);
    var dash, tag := "-", "VCL_trace";
    FiveFields(dash, tag, t.vclName, t.traceID, PrintLocation(t));
    FieldsPadding(blanks, dash + " " + (tag + " " + (t.vclName + " " + (t.traceID + " " + PrintLocation(t)))));
  }

  /** A printed trace is read back with its name, its id and its position. */
  lemma TraceRoundTrip(blanks: string, t: Trace)
    requires AllSpace(blanks) && Word(t.vclName) && Word(t.traceID)
    requires 0 <= t.config <= MAX_INT && 0 <= t.line <= MAX_INT && 0 <= t.column <= MAX_INT
    ensures ParseVCLTrace(ParseLine(PrintTrace(blanks, t))) == Some(t)
  {
    TraceFields(blanks, t);
    LocationSplits(t);
    AtoiDecimal(t.config);
    AtoiDecimal(t.line);
    AtoiDecimal(t.column);
  }

  /** A line of any blanks whose second word is the trace tag and whose fifth is a position: what follows is ignored. */
  lemma TraceByWords(s: Spaced, lead: string, t: Trace, extra: seq<string>)
    requires 0 <= t.config <= MAX_INT && 0 <= t.line <= MAX_INT && 0 <= t.column <= MAX_INT
    requires Proper(s) && SpacedWords(s) == [lead, "VCL_trace", t.vclName, t.traceID, PrintLocation(t)] + extra
    ensures ParseVCLTrace(ParseLine(Spelled(s))) == Some(t)
  {
    FieldsAreWords(s);
    LocationSplits(t);
    AtoiDecimal(t.config);
    AtoiDecimal(t.line);
    AtoiDecimal(t.column);
  }

  /** A position that is not three numbers. */
  ghost predicate NoPosition(location: string) {
    NotThreeNumbers(Split(location, '.'))
  }

  ghost predicate NotThreeNumbers(parts: seq<string>) {
    |parts| != 3 || exists i :: 0 <= i < 3 && NoNumber(parts[i])
  }

  /** A message that is no trace, or that lacks a name, an id or a position of three numbers, traces nothing. */
  lemma NoTrace(m: Message)
    requires m.kind != VCLTrace || |m.fields| < 5 || NoPosition(m.fields[4])
    ensures ParseVCLTrace(m) == None
  {
    if m.kind == VCLTrace && |m.fields| >= 5 && |Split(m.fields[4], '.')| == 3 {
      SomeNumberFails(Split(m.fields[4], '.'));
    }
  }

  lemma SomeNumberFails(parts: seq<string>)
    requires NotThreeNumbers(parts) && |parts| == 3
    ensures Atoi(parts[0]).None? || Atoi(parts[1]).None? || Atoi(parts[2]).None?
  {
    var i :| 0 <= i < 3 && NoNumber(parts[i]);
    NoNumberReads(parts[i]);
  }

  /** The lines of a config that some message traces. */
  function TracedLines(messages: seq<Message>, config: int): set<int> {
    set i | 0 <= i < |messages| && ParseVCLTrace(messages[i]).Some? && ParseVCLTrace(messages[i]).value.config == config
      :: ParseVCLTrace(messages[i]).value.line
  }

  lemma TracedLinesConcat(a: seq<Message>, b: seq<Message>, config: int)
    ensures TracedLines(a + b, config) == TracedLines(a, config) + TracedLines(b, config)
  {
    var c := a + b;
    forall i | 0 <= i < |b| && ParseVCLTrace(b[i]).Some? && ParseVCLTrace(b[i]).value.config == config
      ensures ParseVCLTrace(b[i]).value.line in TracedLines(c, config)
    {
      assert c[|a| + i] == b[i];
    }
    forall i | 0 <= i < |a| && ParseVCLTrace(a[i]).Some? && ParseVCLTrace(a[i]).value.config == config
      ensures ParseVCLTrace(a[i]).value.line in TracedLines(c, config)
    {
      assert c[i] == a[i];
    }
  }
}
