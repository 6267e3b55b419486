/** The parser of `vcl.show -v` output (`pkg/varnishadm/parsers.go`): VCL.SHOW headers, each followed by exactly
    as many bytes of source as the header says. */
module VclShow {
  import opened Common
  import opened Text

  datatype Entry = Entry(configID: int, size: int, filename: string, source: string)

  datatype Result = Ok(entries: seq<Entry>) | InvalidConfigID | InvalidSize

  /** The three groups of a header line. */
  datatype Header = Header(id: string, size: string, filename: string)

  // ---------------------------------------------------------------- the header line

  /** White space as regular expressions see it: no vertical tab. */
  predicate IsBlank(c: char) {
    c == ' ' || c == '\t' || c == '\n' || c == '\r' || c as int == 12
  }

  function BlankRun(s: string): (n: nat)
    ensures n <= |s|
  {
    if s != [] && IsBlank(s[0]) then 1 + BlankRun(s[1..]) else 0
  }

  function DigitRun(s: string): (n: nat)
    ensures n <= |s|
  {
    if s != [] && IsDigit(s[0]) then 1 + DigitRun(s[1..]) else 0
  }

  /** What follows the given word and at least one blank. */
  function AfterWord(s: string, word: string): Option<string> {
    if word <= s && BlankRun(s[|word|..]) > 0 then Some(s[|word| + BlankRun(s[|word|..])..]) else None
  }

  /** What follows `//`, blanks, `VCL.SHOW` and blanks. */
  function MatchTag(line: string): Option<string> {
    var afterSlashes := AfterWord(line, "//");
    if afterSlashes.None? then None else AfterWord(afterSlashes.value, "VCL.SHOW")
  }

  /** The expression ^//\s+VCL\.SHOW\s+(\d+)\s+(\d+)\s+(.+)$ on one line. */
  function MatchHeader(line: string): Option<Header> {
    var numbers := MatchTag(line);
    if numbers.None? then None else MatchNumbers(numbers.value)
  }

  /** The two numbers and the filename.  The last run of blanks gives one back to the filename when nothing else
      is left for it. */
  function MatchNumbers(s: string): Option<Header> {
    var id := s[..DigitRun(s)];
    var afterID := AfterWord(s, id);
    if id == "" || afterID.None? then None
    else
      var size := afterID.value[..DigitRun(afterID.value)];
      var blanks := afterID.value[|size|..];
      var filename := blanks[BlankRun(blanks)..];
      if size == "" || BlankRun(blanks) == 0 then None
      else if filename != "" then Some(Header(id, size, filename))
      else if BlankRun(blanks) > 1 then Some(Header(id, size, blanks[BlankRun(blanks) - 1..]))
      else None
  }

  // ---------------------------------------------------------------- the parser as a function

  /** Where the line at pos ends: at its newline, or at the end of the data. */
  function LineEnd(data: string, pos: nat): (n: nat)
    requires pos <= |data|
    ensures pos <= n <= |data|
    decreases |data| - pos
  {
    if pos == |data| || data[pos] == '\n' then pos else LineEnd(data, pos + 1)
  }

  function Min(a: int, b: int): int {
    if a < b then a else b
  }

  function Prepend(entries: seq<Entry>, r: Result): Result {
    if r.Ok? then Ok(entries + r.entries) else r
  }

  /** What one line is to the parser. */
  datatype Line =
    | Plain
    | Shown(configID: int, size: nat, filename: string)
    | BadConfigID
    | BadSize

  function ReadLine(line: string): Line {
    var header := MatchHeader(line);
    if header.None? then Plain
    else
      var id, size := Atoi(header.value.id), Atoi(header.value.size);
      if id.None? then BadConfigID
      else if size.None? || size.value < 0 then BadSize
      else Shown(id.value, size.value, Trim(header.value.filename))
  }

  /** The parser from a position on, for any way of reading a line: plain lines are skipped, and after a header
      exactly as many bytes as it says are the source, or all that is left. */
  function ParseFrom(read: string -> Line, data: string, pos: nat): Result
    requires pos <= |data|
    decreases |data| - pos
  {
    if pos == |data| then Ok([])
    else
      var lineEnd := LineEnd(data, pos);
      var start := Min(lineEnd + 1, |data|);
      match read(data[pos..lineEnd])
      case Plain => ParseFrom(read, data, start)
      case BadConfigID => InvalidConfigID
      case BadSize => InvalidSize
      case Shown(configID, size, filename) =>
        var end := Min(start + size, |data|);
        Prepend([Entry(configID, size, filename, data[start..end])], ParseFrom(read, data, end))
  }

  function Parse(data: string): Result {
    ParseFrom(ReadLine, data, 0)
  }

  /** Each config's filename; a repeated config keeps its last one. */
  function ConfigMap(entries: seq<Entry>): map<int, string> {
    if entries == [] then map[]
    else
      var last := entries[|entries| - 1];
      ConfigMap(entries[..|entries| - 1])[last.configID := last.filename]
  }

  function Sources(entries: seq<Entry>): string {
    if entries == [] then "" else Sources(entries[..|entries| - 1]) + entries[|entries| - 1].source
  }

  lemma PrependTwice(a: seq<Entry>, b: seq<Entry>, r: Result)
    ensures Prepend(a, Prepend(b, r)) == Prepend(a + b, r)
  {
    if r.Ok? {
      assert a + (b + r.entries) == a + b + r.entries;
    }
  }

  // ---------------------------------------------------------------- the parser with its cursor

  method FindLineEnd(payload: string, pos: nat) returns (lineEnd: nat)
    requires pos <= |payload|
    ensures lineEnd == LineEnd(payload, pos)
  {
    lineEnd := pos;
    while lineEnd < |payload| && payload[lineEnd] != '\n'
      invariant pos <= lineEnd <= |payload|
      invariant LineEnd(payload, pos) == LineEnd(payload, lineEnd)
    {
      lineEnd := lineEnd + 1;
    }
  }

  method JoinSources(entries: seq<Entry>) returns (vclSource: string)
    ensures vclSource == Sources(entries)
  {
    vclSource := "";
    for i := 0 to |entries|
      invariant vclSource == Sources(entries[..i])
    {
      assert entries[..i + 1][..i] == entries[..i];
      vclSource := vclSource + entries[i].source;
    }
    assert entries[..|entries|] == entries;
  }

  method ParseVCLShow(payload: string) returns (r: Result, configMap: map<int, string>, vclSource: string)
    ensures r == Parse(payload)
    ensures r.Ok? ==> configMap == ConfigMap(r.entries) && vclSource == Sources(r.entries)
  {
    var read := ReadLine;
    r, configMap := ParseLines(read, payload);
    vclSource := "";
    if r.Ok? {
      vclSource := JoinSources(r.entries);
    }
  }

  /** Moving the cursor over one entry. */
  lemma ReadEntry(
    read: string -> Line, data: string, pos: nat, lineEnd: nat, entries: seq<Entry>, e: Entry, end: nat)
    requires pos < |data| && lineEnd == LineEnd(data, pos) && e.size >= 0
    requires read(data[pos..lineEnd]) == Shown(e.configID, e.size, e.filename)
    requires var start := Min(lineEnd + 1, |data|);
             end == Min(start + e.size, |data|) && e.source == data[start..end]
    ensures Prepend(entries, ParseFrom(read, data, pos)) == Prepend(entries + [e], ParseFrom(read, data, end))
  {
    PrependTwice(entries, [e], ParseFrom(read, data, end));
  }

  lemma MapNext(entries: seq<Entry>, entry: Entry)
    ensures ConfigMap(entries + [entry]) == ConfigMap(entries)[entry.configID := entry.filename]
  {
    assert (entries + [entry])[..|entries|] == entries;
  }

  /** The cursor loop: what was read so far, put before what the rest parses to, is the whole. */
  method ParseLines(read: string -> Line, payload: string) returns (r: Result, configMap: map<int, string>)
    ensures r == ParseFrom(read, payload, 0)
    ensures r.Ok? ==> configMap == ConfigMap(r.entries)
  {
    var entries: seq<Entry> := [];
    configMap := map[];
    var pos := 0;
    while pos < |payload|
      invariant 0 <= pos <= |payload|
      invariant ParseFrom(read, payload, 0) == Prepend(entries, ParseFrom(read, payload, pos))
      invariant configMap == ConfigMap(entries)
    {
      var lineEnd := FindLineEnd(payload, pos);
      var contentStart := Min(lineEnd + 1, |payload|);
      match read(payload[pos..lineEnd]) {
        case Plain =>
          pos := contentStart;
        case BadConfigID =>
          return InvalidConfigID, configMap;
        case BadSize =>
          return InvalidSize, configMap;
        case Shown(configID, size, filename) =>
          var contentEnd := Min(contentStart + size, |payload|);
          var entry := Entry(configID, size, filename, payload[contentStart..contentEnd]);
          ReadEntry(read, payload, pos, lineEnd, entries, entry, contentEnd);
          MapNext(entries, entry);
          entries := entries + [entry];
          configMap := configMap[configID := filename];
          pos := contentEnd;
      }
    }
    assert entries + [] == entries;
    r := Ok(entries);
  }

  // ---------------------------------------------------------------- the parser inverts the printer

  /** An entry as Varnish prints one: the size is the length of the source, the filename is one trimmed line. */
  predicate Printable(e: Entry) {
    && 0 <= e.configID <= MAX_INT && e.size <= MAX_INT && e.size == |e.source|
    && Trimmed(e.filename) && OneLine(e.filename)
  }

  function HeaderLine(e: Entry): string
    requires Printable(e)
  {
    "// VCL.SHOW " + Decimal(e.configID) + " " + Decimal(e.size) + " " + e.filename
  }

  /** Headers and sources, each source followed by a newline or not. */
  function Print(entries: seq<Entry>, separate: seq<bool>): string
    requires |entries| == |separate| && forall i :: 0 <= i < |entries| ==> Printable(entries[i])
  {
    if entries == [] then ""
    else
      HeaderLine(entries[0]) + "\n" + entries[0].source + (if separate[0] then "\n" else "")
      + Print(entries[1..], separate[1..])
  }

  lemma {:induction false} DigitRunOf(digits: string, rest: string)
    requires AllDigits(digits) && (rest == "" || !IsDigit(rest[0]))
    ensures DigitRun(digits + rest) == |digits|
    decreases |digits|
  {
    if digits == [] {
      assert digits + rest == rest;
    } else {
      assert (digits + rest)[1..] == digits[1..] + rest;
      DigitRunOf(digits[1..], rest);
    }
  }

  predicate Blanks(s: string) {
    s != "" && forall i :: 0 <= i < |s| ==> IsBlank(s[i])
  }

  lemma {:induction false} BlankRunOf(blanks: string, rest: string)
    requires forall i :: 0 <= i < |blanks| ==> IsBlank(blanks[i])
    requires rest == "" || !IsBlank(rest[0])
    ensures BlankRun(blanks + rest) == |blanks|
    decreases |blanks|
  {
    if blanks == [] {
      assert blanks + rest == rest;
    } else {
      assert (blanks + rest)[1..] == blanks[1..] + rest;
      BlankRunOf(blanks[1..], rest);
    }
  }

  lemma AfterWordOf(word: string, blanks: string, rest: string)
    requires Blanks(blanks) && rest != "" && !IsBlank(rest[0])
    ensures AfterWord(word + (blanks + rest), word) == Some(rest)
  {
    var s := word + (blanks + rest);
    assert s[|word|..] == blanks + rest;
    BlankRunOf(blanks, rest);
    assert s[|word| + |blanks|..] == rest;
  }

  /** A run of digits, blanks, and more. */
  lemma DigitsThenWord(digits: string, blanks: string, rest: string)
    requires digits != "" && AllDigits(digits) && Blanks(blanks) && rest != "" && !IsBlank(rest[0])
    ensures var s := digits + (blanks + rest);
            && DigitRun(s) == |digits| && s[..|digits|] == digits && s[|digits|..] == blanks + rest
            && !IsBlank(s[0]) && AfterWord(s, digits) == Some(rest)
  {
    assert IsDigit(digits[0]) && IsBlank((blanks + rest)[0]);
    DigitRunOf(digits, blanks + rest);
    AfterWordOf(digits, blanks, rest);
  }

  lemma NumbersSpaced(id: string, b1: string, size: string, b2: string, filename: string)
    requires id != "" && AllDigits(id) && size != "" && AllDigits(size) && Blanks(b1) && Blanks(b2)
    requires filename != "" && !IsBlank(filename[0])
    ensures MatchNumbers(id + (b1 + (size + (b2 + filename)))) == Some(Header(id, size, filename))
  {
    var sized := size + (b2 + filename);
    DigitsThenWord(size, b2, filename);
    DigitsThenWord(id, b1, sized);
    BlankRunOf(b2, filename);
    assert (b2 + filename)[|b2|..] == filename;
  }

  lemma TagSpaced(b1: string, b2: string, numbers: string)
    requires Blanks(b1) && Blanks(b2) && numbers != "" && !IsBlank(numbers[0])
    ensures MatchTag("//" + (b1 + ("VCL.SHOW" + (b2 + numbers)))) == Some(numbers)
  {
    AfterWordOf("VCL.SHOW", b2, numbers);
    AfterWordOf("//", b1, "VCL.SHOW" + (b2 + numbers));
  }

  lemma MatchStages(line: string, numbers: string)
    requires MatchTag(line) == Some(numbers)
    ensures MatchHeader(line) == MatchNumbers(numbers)
  {
  }

  /** The expression matches a header with any blanks in it and captures its id, its size and its filename. */
  lemma MatchSpaced(
    b1: string, b2: string, id: string, b3: string, size: string, b4: string, filename: string)
    requires Blanks(b1) && Blanks(b2) && Blanks(b3) && Blanks(b4)
    requires id != "" && AllDigits(id) && size != "" && AllDigits(size) && filename != "" && !IsBlank(filename[0])
    ensures MatchHeader("//" + (b1 + ("VCL.SHOW" + (b2 + (id + (b3 + (size + (b4 + filename))))))))
            == Some(Header(id, size, filename))
  {
    var numbers := id + (b3 + (size + (b4 + filename)));
    DigitsThenWord(size, b4, filename);
    DigitsThenWord(id, b3, size + (b4 + filename));
    TagSpaced(b1, b2, numbers);
    MatchStages("//" + (b1 + ("VCL.SHOW" + (b2 + numbers))), numbers);
    NumbersSpaced(id, b3, size, b4, filename);
  }

  /** The filename is what follows, trimmed; where only blanks follow, one of two or more is left for it. */
  lemma FilenameTrimmed(b1: string, b2: string, id: nat, b3: string, size: nat, b4: string, name: string, after: string)
    requires Blanks(b1) && Blanks(b2) && Blanks(b3) && Blanks(b4) && id <= MAX_INT && size <= MAX_INT
    requires Trimmed(name) && AllSpace(after)
    ensures ReadLine("//" + (b1 + ("VCL.SHOW" + (b2 + (Decimal(id) + (b3 + (Decimal(size) + (b4 + (name + after)))))))))
            == Shown(id, size, name)
  {
    DecimalRoundTrip(id);
    DecimalRoundTrip(size);
    AtoiDecimal(id);
    AtoiDecimal(size);
    MatchSpaced(b1, b2, Decimal(id), b3, Decimal(size), b4, name + after);
    TrimPadded(name, after);
  }

  lemma BlankFilename(id: string, b1: string, size: string, b2: string)
    requires id != "" && AllDigits(id) && size != "" && AllDigits(size) && Blanks(b1) && Blanks(b2)
    ensures MatchNumbers(id + (b1 + (size + b2)))
            == if |b2| == 1 then None else Some(Header(id, size, [b2[|b2| - 1]]))
  {
    var sized := size + b2;
    assert IsDigit(size[0]) && IsBlank(b2[0]);
    DigitsThenWord(id, b1, sized);
    SizeThenBlanks(size, b2);
  }

  lemma SizeThenBlanks(size: string, blanks: string)
    requires size != "" && AllDigits(size) && Blanks(blanks)
    ensures var s := size + blanks;
            && DigitRun(s) == |size| && s[..|size|] == size && s[|size|..] == blanks
            && BlankRun(blanks) == |blanks| && blanks[|blanks|..] == ""
            && blanks[|blanks| - 1..] == [blanks[|blanks| - 1]]
  {
    assert IsBlank(blanks[0]);
    DigitRunOf(size, blanks);
    assert blanks + "" == blanks;
    BlankRunOf(blanks, "");
  }

  /** A blank is what the expression takes for one: white space but the vertical tab. */
  lemma BlankCharacters(c: char)
    ensures IsBlank(c) <==> c as int in {32, 9, 10, 12, 13}
  {
  }

  /** Only lines that start with the slashes can be headers. */
  lemma OthersArePlain(line: string)
    requires !("//" <= line)
    ensures ReadLine(line) == Plain
  {
  }

  lemma HeaderLineParts(e: Entry)
    requires Printable(e)
    ensures HeaderLine(e)
            == "//" + (" " + ("VCL.SHOW" + (" " + (Decimal(e.configID)
                                                  + (" " + (Decimal(e.size) + (" " + e.filename)))))))
  {
    assert "// VCL.SHOW " == "//" + " " + "VCL.SHOW" + " ";
  }

  lemma MatchPrinted(e: Entry)
    requires Printable(e)
    ensures MatchHeader(HeaderLine(e)) == Some(Header(Decimal(e.configID), Decimal(e.size), e.filename))
  {
    DecimalRoundTrip(e.configID);
    DecimalRoundTrip(e.size);
    HeaderLineParts(e);
    MatchSpaced(" ", " ", Decimal(e.configID), " ", Decimal(e.size), " ", e.filename);
  }

  lemma {:induction false} LineEndAt(data: string, pos: nat, end: nat)
    requires pos <= end < |data| && data[end] == '\n'
    requires forall i :: pos <= i < end ==> data[i] != '\n'
    ensures LineEnd(data, pos) == end
    decreases end - pos
  {
    if pos < end {
      LineEndAt(data, pos + 1, end);
    }
  }

  lemma DecimalOneLine(n: nat)
    ensures OneLine(Decimal(n))
  {
    DecimalRoundTrip(n);
    forall i | 0 <= i < |Decimal(n)| ensures Decimal(n)[i] != '\n' {
      assert IsDigit(Decimal(n)[i]);
    }
  }

  lemma HeaderOneLine(e: Entry)
    requires Printable(e)
    ensures OneLine(HeaderLine(e))
  {
    DecimalOneLine(e.configID);
    DecimalOneLine(e.size);
  }

  lemma ParseBlankLine(read: string -> Line, data: string, pos: nat)
    requires read("").Plain? && pos < |data| && data[pos] == '\n'
    ensures ParseFrom(read, data, pos) == ParseFrom(read, data, pos + 1)
  {
    assert data[pos..pos] == "";
  }

  /** A header line and its source, wherever they are in the data. */
  lemma ParseEntry(read: string -> Line, data: string, pos: nat, lineEnd: nat, e: Entry)
    requires pos <= lineEnd && lineEnd + 1 + |e.source| <= |data| && e.size == |e.source|
    requires data[lineEnd] == '\n' && OneLine(data[pos..lineEnd])
    requires read(data[pos..lineEnd]) == Shown(e.configID, e.size, e.filename)
    requires data[lineEnd + 1..lineEnd + 1 + e.size] == e.source
    ensures ParseFrom(read, data, pos) == Prepend([e], ParseFrom(read, data, lineEnd + 1 + e.size))
  {
    assert forall i :: pos <= i < lineEnd ==> data[i] == data[pos..lineEnd][i - pos];
    LineEndAt(data, pos, lineEnd);
  }

  lemma ReadPrinted(e: Entry)
    requires Printable(e)
    ensures ReadLine(HeaderLine(e)) == Shown(e.configID, e.size, e.filename)
  {
    MatchPrinted(e);
    AtoiDecimal(e.configID);
    AtoiDecimal(e.size);
    TrimTrimmed(e.filename);
  }

  /** Where the parts of printed data are. */
  lemma PrintParts(data: string, pos: nat, header: string, source: string, sep: string, rest: string)
    requires pos <= |data| && data[pos..] == header + "\n" + source + sep + rest
    ensures var lineEnd := pos + |header|;
            var end := lineEnd + 1 + |source|;
            && end + |sep| <= |data| && data[pos..lineEnd] == header && data[lineEnd] == '\n'
            && data[lineEnd + 1..end] == source && data[end..end + |sep|] == sep && data[end + |sep|..] == rest
  {
    var tail := data[pos..];
    var h, s := |header|, |header| + 1 + |source|;
    assert tail[..h] == header && tail[h] == '\n' && tail[h + 1..s] == source;
    assert tail[s..s + |sep|] == sep && tail[s + |sep|..] == rest;
    assert data[pos..pos + h] == tail[..h] && data[pos + h] == tail[h];
    assert data[pos + h + 1..pos + s] == tail[h + 1..s];
    assert data[pos + s..pos + s + |sep|] == tail[s..s + |sep|] && data[pos + s + |sep|..] == tail[s + |sep|..];
  }

  lemma ParseNext(
    read: string -> Line, data: string, pos: nat, header: string, e: Entry, separated: bool, rest: string)
    returns (next: nat)
    requires pos <= |data| && OneLine(header) && e.size == |e.source|
    requires data[pos..] == header + "\n" + e.source + (if separated then "\n" else "") + rest
    requires read("").Plain? && read(header) == Shown(e.configID, e.size, e.filename)
    ensures pos < next <= |data| && data[next..] == rest
    ensures ParseFrom(read, data, pos) == Prepend([e], ParseFrom(read, data, next))
  {
    PrintParts(data, pos, header, e.source, if separated then "\n" else "", rest);
    var end := pos + |header| + 1 + e.size;
    ParseEntry(read, data, pos, pos + |header|, e);
    if separated {
      ParseBlankLine(read, data, end);
    }
    next := if separated then end + 1 else end;
  }

  /** Reads back the header lines of Varnish. */
  ghost predicate ReadsHeaders(read: string -> Line) {
    read("").Plain? && forall e :: Printable(e) ==> read(HeaderLine(e)) == Shown(e.configID, e.size, e.filename)
  }

  lemma {:induction false} ParsePrinted(
    read: string -> Line, data: string, pos: nat, entries: seq<Entry>, separate: seq<bool>)
    requires |entries| == |separate| && forall i :: 0 <= i < |entries| ==> Printable(entries[i])
    requires pos <= |data| && data[pos..] == Print(entries, separate)
    requires ReadsHeaders(read)
    ensures ParseFrom(read, data, pos) == Ok(entries)
    decreases |entries|
  {
    if entries != [] {
      var e := entries[0];
      HeaderOneLine(e);
      assert read(HeaderLine(e)) == Shown(e.configID, e.size, e.filename);
      var next := ParseNext(
        read, data, pos, HeaderLine(e), e, separate[0], Print(entries[1..], separate[1..]));
      ParsePrinted(read, data, next, entries[1..], separate[1..]);
      assert [e] + entries[1..] == entries;
    }
  }

  /** For every list of entries, however sources end and are separated, and even when a source holds lines that
      look like headers: parsing what Varnish prints gives the entries back. */
  lemma ParseInvertsPrint(entries: seq<Entry>, separate: seq<bool>)
    requires |entries| == |separate| && forall i :: 0 <= i < |entries| ==> Printable(entries[i])
    ensures Parse(Print(entries, separate)) == Ok(entries)
  {
    forall e | Printable(e) ensures ReadLine(HeaderLine(e)) == Shown(e.configID, e.size, e.filename) {
      ReadPrinted(e);
    }
    assert ReadLine("").Plain?;
    var data := Print(entries, separate);
    assert data[0..] == data;
    ParsePrinted(ReadLine, data, 0, entries, separate);
  }

  /** A header whose config id or size is no machine integer ends the parse with the error for it, the id first. */
  lemma TooBigIsRefused(id: nat, size: nat, filename: string)
    requires filename != "" && !IsBlank(filename[0])
    ensures var line := "//" + (" " + ("VCL.SHOW" + (" " + (Decimal(id)
                                                          + (" " + (Decimal(size) + (" " + filename)))))));
            && (id > 9223372036854775807 ==> ReadLine(line) == BadConfigID)
            && (id <= 9223372036854775807 && size > 9223372036854775807 ==> ReadLine(line) == BadSize)
            && (OneLine(line) && id > 9223372036854775807 ==> Parse(line) == InvalidConfigID)
            && (OneLine(line) && id <= 9223372036854775807 && size > 9223372036854775807 ==>
                  Parse(line) == InvalidSize)
  {
    DecimalRoundTrip(id);
    DecimalRoundTrip(size);
    MatchSpaced(" ", " ", Decimal(id), " ", Decimal(size), " ", filename);
    AtoiSigned(id);
    AtoiSigned(size);
    if id <= MAX_INT {
      AtoiDecimal(id);
    }
    var line := "//" + (" " + ("VCL.SHOW" + (" " + (Decimal(id) + (" " + (Decimal(size) + (" " + filename)))))));
    if OneLine(line) {
      LineEndWhole(line, 0);
      assert line[0..|line|] == line;
    }
  }

  lemma {:induction false} LineEndWhole(data: string, pos: nat)
    requires pos <= |data| && OneLine(data)
    ensures LineEnd(data, pos) == |data|
    decreases |data| - pos
  {
    if pos < |data| {
      LineEndWhole(data, pos + 1);
    }
  }

  /** The concatenated source is that of the entries in order. */
  lemma {:induction false} SourcesConcat(a: seq<Entry>, e: Entry, b: seq<Entry>)
    ensures Sources([]) == ""
    ensures Sources(a + [e] + b) == Sources(a) + e.source + Sources(b)
    decreases |b|
  {
    if b == [] {
      assert (a + [e] + b)[..|a|] == a && a + [e] + b == a + [e];
      assert Sources(a) + e.source + "" == Sources(a) + e.source;
    } else {
      var init := b[..|b| - 1];
      assert (a + [e] + b)[..|a + [e] + b| - 1] == a + [e] + init;
      SourcesConcat(a, e, init);
      assert Sources(a) + e.source + (Sources(init) + b[|b| - 1].source)
          == Sources(a) + e.source + Sources(init) + b[|b| - 1].source;
    }
  }

  /** The map has exactly the configs shown, each with the filename it was shown with last. */
  lemma {:induction false} ConfigMapKeepsLast(entries: seq<Entry>, i: nat)
    requires i < |entries| && forall j :: i < j < |entries| ==> entries[j].configID != entries[i].configID
    ensures entries[i].configID in ConfigMap(entries)
    ensures ConfigMap(entries)[entries[i].configID] == entries[i].filename
    decreases |entries|
  {
    if i < |entries| - 1 {
      ConfigMapKeepsLast(entries[..|entries| - 1], i);
    }
  }

  lemma {:induction false} ConfigMapHolds(entries: seq<Entry>, id: int)
    ensures id in ConfigMap(entries) <==> exists i :: 0 <= i < |entries| && entries[i].configID == id
    decreases |entries|
  {
    if entries != [] {
      var init := entries[..|entries| - 1];
      ConfigMapHolds(init, id);
      if i :| 0 <= i < |entries| && entries[i].configID == id {
        assert i < |init| ==> init[i].configID == id;
      }
    }
  }

  // ---------------------------------------------------------------- any payload

  predicate SliceAt(data: string, e: Entry, start: nat) {
    && start + |e.source| <= |data|
    && data[start..start + |e.source|] == e.source
    && |e.source| <= e.size
  }

  /** Each source ends before the next one starts. */
  predicate Apart(entries: seq<Entry>, starts: seq<nat>)
    requires |starts| == |entries|
  {
    forall i, j :: 0 <= i < j < |entries| ==> starts[i] + |entries[i].source| <= starts[j]
  }

  predicate OnlyLastShort(entries: seq<Entry>) {
    forall i :: 0 <= i < |entries| - 1 ==> |entries[i].source| == entries[i].size
  }

  /** The sources are slices of the payload at the given places, in order and apart; only the last may be cut
      short of its size. */
  predicate SlicesAt(data: string, entries: seq<Entry>, starts: seq<nat>) {
    && |starts| == |entries|
    && (forall i :: 0 <= i < |entries| ==> SliceAt(data, entries[i], starts[i]))
    && Apart(entries, starts)
    && OnlyLastShort(entries)
  }

  lemma ApartCons(e: Entry, start: nat, entries: seq<Entry>, starts: seq<nat>)
    requires |starts| == |entries| && Apart(entries, starts)
    requires forall i :: 0 <= i < |starts| ==> start + |e.source| <= starts[i]
    ensures Apart([e] + entries, [start] + starts)
  {
    var es, ss := [e] + entries, [start] + starts;
    forall i, j | 0 <= i < j < |es| ensures ss[i] + |es[i].source| <= ss[j] {
      assert ss[j] == starts[j - 1];
      if i > 0 {
        assert es[i] == entries[i - 1] && ss[i] == starts[i - 1];
      }
    }
  }

  lemma OnlyLastShortCons(e: Entry, entries: seq<Entry>)
    requires OnlyLastShort(entries) && |e.source| <= e.size && (|e.source| < e.size ==> entries == [])
    ensures OnlyLastShort([e] + entries)
  {
  }

  lemma SlicesCons(data: string, e: Entry, start: nat, entries: seq<Entry>, starts: seq<nat>)
    requires SlicesAt(data, entries, starts) && SliceAt(data, e, start)
    requires forall i :: 0 <= i < |starts| ==> start + |e.source| <= starts[i]
    requires |e.source| < e.size ==> entries == []
    ensures SlicesAt(data, [e] + entries, [start] + starts)
  {
    var es, ss := [e] + entries, [start] + starts;
    forall i | 0 <= i < |es| ensures SliceAt(data, es[i], ss[i]) {
      if i > 0 {
        assert es[i] == entries[i - 1] && ss[i] == starts[i - 1];
      }
    }
    ApartCons(e, start, entries, starts);
    OnlyLastShortCons(e, entries);
  }

  lemma {:induction false} SlicesFrom(read: string -> Line, data: string, pos: nat) returns (starts: seq<nat>)
    requires pos <= |data| && ParseFrom(read, data, pos).Ok?
    ensures SlicesAt(data, ParseFrom(read, data, pos).entries, starts)
    ensures forall i :: 0 <= i < |starts| ==> pos <= starts[i]
    decreases |data| - pos, 1
  {
    if pos == |data| {
      return [];
    }
    var lineEnd := LineEnd(data, pos);
    var start := Min(lineEnd + 1, |data|);
    var line := read(data[pos..lineEnd]);
    if line.Plain? {
      starts := SlicesFrom(read, data, start);
    } else {
      var end := Min(start + line.size, |data|);
      var e := Entry(line.configID, line.size, line.filename, data[start..end]);
      assert ParseFrom(read, data, pos) == Prepend([e], ParseFrom(read, data, end));
      starts := SlicesAfter(read, data, start, e, end);
    }
  }

  lemma {:induction false} SlicesAfter(read: string -> Line, data: string, start: nat, e: Entry, end: nat)
    returns (starts: seq<nat>)
    requires start <= end <= |data| && ParseFrom(read, data, end).Ok?
    requires SliceAt(data, e, start) && start + |e.source| == end && (|e.source| < e.size ==> end == |data|)
    ensures SlicesAt(data, [e] + ParseFrom(read, data, end).entries, starts)
    ensures forall i :: 0 <= i < |starts| ==> start <= starts[i]
    decreases |data| - end, 2
  {
    var inner := SlicesFrom(read, data, end);
    SlicesCons(data, e, start, ParseFrom(read, data, end).entries, inner);
    starts := [start] + inner;
  }

  /** On any payload that parses, the sources are disjoint slices of it in order, and only the last can be
      shorter than its size. */
  lemma SourcesAreSlices(payload: string)
    requires Parse(payload).Ok?
    ensures exists starts :: SlicesAt(payload, Parse(payload).entries, starts)
  {
    var starts := SlicesFrom(ReadLine, payload, 0);
  }
}
