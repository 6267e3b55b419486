/** The certificate list: the mock's padded table, read back by the real parser of `pkg/varnishadm/parsers.go`. */
module TlsListing {
  import opened Common
  import opened Text
  import opened TlsMock

  datatype Result = Parsed(entries: seq<Cert>) | Insufficient(line: string)

  function ToLower(c: char): char {
    if 'A' <= c <= 'Z' then (c as int + 32) as char else c
  }

  function LowerCase(s: string): string {
    seq(|s|, i requires 0 <= i < |s| => ToLower(s[i]))
  }

  /** One line: frontend, state, hostname, certificate ID, five words of date, OCSP stapling. */
  function ParseLine(line: string): Option<Cert> {
    var parts := Fields(line);
    if |parts| < 10 then None
    else
      var ocsp := LowerCase(parts[9]);
      Some(Cert(parts[0], parts[1], parts[2], parts[3], Join(parts[4..9], " "), ocsp == "enabled" || ocsp == "true"))
  }

  function ParseLines(lines: seq<string>): Result {
    if lines == [] then Parsed([])
    else
      var line := Trim(lines[0]);
      if line == "" then ParseLines(lines[1..])
      else
        var entry := ParseLine(line);
        if entry.None? then Insufficient(line)
        else
          var rest := ParseLines(lines[1..]);
          if rest.Parsed? then Parsed([entry.value] + rest.entries) else rest
  }

  function ParseList(payload: string): Result {
    var lines := Split(Trim(payload), '\n');
    ParseLines(if Contains(lines[0], "Frontend") then lines[1..] else lines)
  }

  method ParseTLSCertList(payload: string) returns (r: Result)
    ensures r == ParseList(payload)
  {
    var lines := Split(Trim(payload), '\n');
    var startIndex := 0;
    if |lines| > 0 && Contains(lines[0], "Frontend") {
      startIndex := 1;
    }
    var entries := [];
    ghost var whole := ParseLines(lines[startIndex..]);
    assert lines[0..] == lines;
    for i := startIndex to |lines|
      invariant var rest := ParseLines(lines[i..]);
                whole == if rest.Parsed? then Parsed(entries + rest.entries) else rest
    {
      assert lines[i..][1..] == lines[i + 1..];
      var line := Trim(lines[i]);
      if line == "" {
        continue;
      }
      var entry := ParseLine(line);
      if entry.None? {
        return Insufficient(line);
      }
      ghost var rest := ParseLines(lines[i + 1..]);
      assert rest.Parsed? ==> entries + ([entry.value] + rest.entries) == (entries + [entry.value]) + rest.entries;
      entries := entries + [entry.value];
    }
    assert lines[|lines|..] == [];
    assert entries + [] == entries;
    return Parsed(entries);
  }

  // ---------------------------------------------------------------- the round trip

  /** Columns hold one word each, the frontend may be empty, and the date shows as five words. */
  predicate Listable(c: Cert, date: seq<string>) {
    && (c.frontend == "" || Word(c.frontend))
    && Word(c.state) && Word(c.hostname) && Word(c.id)
    && |date| == 5 && (forall i :: 0 <= i < 5 ==> Word(date[i])) && c.expiration == Join(date, " ")
  }

  /** What a listing makes of a certificate: an empty frontend shows as `default`. */
  function Shown(c: Cert): Cert {
    c.(frontend := ShownFrontend(c))
  }

  lemma WordThen(word: string, rest: string, after: string)
    requires Word(word)
    ensures Fields(word + " " + rest + after) == [word] + Fields(rest + after)
  {
    FieldsWord(word, " " + (rest + after));
    FieldsPadding(" ", rest + after);
    assert word + " " + rest + after == word + (" " + (rest + after));
  }

  lemma {:induction false} FieldsDate(date: seq<string>, rest: string)
    requires date != [] && forall i :: 0 <= i < |date| ==> Word(date[i])
    requires rest == "" || IsSpace(rest[0])
    ensures Fields(Join(date, " ") + rest) == date + Fields(rest)
    decreases |date|
  {
    if |date| == 1 {
      FieldsWord(date[0], rest);
    } else {
      FieldsDate(date[1..], rest);
      WordThen(date[0], Join(date[1..], " "), rest);
      assert date + Fields(rest) == [date[0]] + (date[1..] + Fields(rest));
    }
  }

  lemma FieldsDateColumn(date: seq<string>, rest: string)
    requires date != [] && forall i :: 0 <= i < |date| ==> Word(date[i])
    ensures Fields(PadRight(Join(date, " "), 25) + " " + rest) == date + Fields(rest)
  {
    var text := Join(date, " ");
    var pad := if |text| < 25 then Spaces(25 - |text|) else "";
    assert PadRight(text, 25) + " " + rest == text + ((pad + " ") + rest);
    FieldsDate(date, (pad + " ") + rest);
    FieldsPadding(pad + " ", rest);
  }

  function Flag(c: Cert): string {
    if c.ocspStapling then "true" else "false"
  }

  function FromDate(c: Cert): string {
    PadRight(c.expiration, 25) + " " + Flag(c)
  }

  function FromID(c: Cert): string {
    PadRight(c.id, 15) + " " + FromDate(c)
  }

  function FromHostname(c: Cert): string {
    PadRight(c.hostname, 16) + " " + FromID(c)
  }

  function FromState(c: Cert): string {
    PadRight(c.state, 7) + " " + FromHostname(c)
  }

  lemma Nest(a: string, b: string, c: string, d: string, e: string, f: string, sep: string)
    ensures a + sep + b + sep + c + sep + d + sep + e + sep + f
            == a + sep + (b + sep + (c + sep + (d + sep + (e + sep + f))))
  {
    var ab := a + sep + b + sep;
    assert ab + (c + sep) == a + sep + (b + sep + (c + sep));
    var abc := ab + c + sep;
    assert abc == ab + (c + sep);
    var ef := e + sep + f;
    assert d + sep + e + sep + f == d + sep + ef;
    assert abc + d + sep + e + sep + f == abc + (d + sep + ef);
  }

  lemma ListLineColumns(c: Cert)
    ensures ListLine(c) == PadRight(ShownFrontend(c), 8) + " " + FromState(c)
  {
    Nest(PadRight(ShownFrontend(c), 8), PadRight(c.state, 7), PadRight(c.hostname, 16), PadRight(c.id, 15),
         PadRight(c.expiration, 25), Flag(c), " ");
  }

  lemma FlagIsWord(c: Cert)
    ensures Word(Flag(c)) && Fields(Flag(c)) == [Flag(c)]
    ensures (LowerCase(Flag(c)) == "true") == c.ocspStapling && LowerCase(Flag(c)) != "enabled"
  {
    assert Flag(c) + "" == Flag(c);
    FieldsWord(Flag(c), "");
    assert LowerCase(Flag(c)) == Flag(c);
  }

  lemma FromDateFields(c: Cert, date: seq<string>)
    requires Listable(c, date)
    ensures Fields(FromDate(c)) == date + [Flag(c)]
  {
    FlagIsWord(c);
    FieldsDateColumn(date, Flag(c));
  }

  lemma FromHostnameFields(c: Cert, date: seq<string>)
    requires Listable(c, date)
    ensures Fields(FromHostname(c)) == [c.hostname, c.id] + date + [Flag(c)]
  {
    FromDateFields(c, date);
    FieldsColumn(c.id, 15, FromDate(c));
    FieldsColumn(c.hostname, 16, FromID(c));
  }

  lemma FromStateFields(c: Cert, date: seq<string>)
    requires Listable(c, date)
    ensures Fields(FromState(c)) == [c.state, c.hostname, c.id] + date + [Flag(c)]
  {
    FromHostnameFields(c, date);
    FieldsColumn(c.state, 7, FromHostname(c));
  }

  lemma ColumnThen(line: string, word: string, width: nat, rest: string, others: seq<string>)
    requires Word(word) && line == PadRight(word, width) + " " + rest && Fields(rest) == others
    ensures Fields(line) == [word] + others
  {
    FieldsColumn(word, width, rest);
  }

  /** The words of a line, in the order of the columns. */
  function Words(c: Cert, date: seq<string>): seq<string> {
    [ShownFrontend(c)] + ([c.state, c.hostname, c.id] + date + [Flag(c)])
  }

  lemma ListLineFields(c: Cert, date: seq<string>)
    requires Listable(c, date)
    ensures Fields(ListLine(c)) == Words(c, date)
  {
    ListLineColumns(c);
    FromStateFields(c, date);
    ColumnThen(ListLine(c), ShownFrontend(c), 8, FromState(c), [c.state, c.hostname, c.id] + date + [Flag(c)]);
  }

  lemma ParseListLine(c: Cert, date: seq<string>)
    requires Listable(c, date)
    ensures ParseLine(ListLine(c)) == Some(Shown(c))
  {
    ListLineFields(c, date);
    FlagIsWord(c);
    var parts := Fields(ListLine(c));
    assert parts[4..9] == date;
  }

  predicate Tidy(line: string) {
    Trimmed(line) && OneLine(line)
  }

  lemma PadRightOneLine(s: string, width: nat)
    requires OneLine(s)
    ensures OneLine(PadRight(s, width))
  {
  }

  lemma {:induction false} JoinOneLine(words: seq<string>)
    requires forall i :: 0 <= i < |words| ==> Word(words[i])
    ensures OneLine(Join(words, " "))
    decreases |words|
  {
    if words != [] {
      WordOneLine(words[0]);
      JoinOneLine(words[1..]);
    }
  }

  lemma WordOneLine(s: string)
    requires Word(s)
    ensures OneLine(s)
  {
    assert forall i :: 0 <= i < |s| ==> !IsSpace(s[i]);
  }

  lemma ListLineTidy(c: Cert, date: seq<string>)
    requires Listable(c, date)
    ensures Tidy(ListLine(c))
  {
    ListLineColumns(c);
    var frontend := ShownFrontend(c);
    assert Word(frontend);
    var line := ListLine(c);
    assert line[0] == frontend[0];
    assert line[|line| - 1] == Flag(c)[|Flag(c)| - 1];
    WordOneLine(frontend);
    WordOneLine(c.state);
    WordOneLine(c.hostname);
    WordOneLine(c.id);
    JoinOneLine(date);
    FlagIsWord(c);
    WordOneLine(Flag(c));
    PadRightOneLine(frontend, 8);
    PadRightOneLine(c.state, 7);
    PadRightOneLine(c.hostname, 16);
    PadRightOneLine(c.id, 15);
    PadRightOneLine(c.expiration, 25);
  }

  predicate AllListable(certs: seq<Cert>, dates: seq<seq<string>>) {
    |dates| == |certs| && forall i :: 0 <= i < |certs| ==> Listable(certs[i], dates[i])
  }

  function AllShown(certs: seq<Cert>): seq<Cert> {
    seq(|certs|, i requires 0 <= i < |certs| => Shown(certs[i]))
  }

  lemma {:induction false} ParseTidyLines(lines: seq<string>, entries: seq<Cert>)
    requires |lines| == |entries|
    requires forall i :: 0 <= i < |lines| ==> Trimmed(lines[i]) && ParseLine(lines[i]) == Some(entries[i])
    ensures ParseLines(lines) == Parsed(entries)
    decreases |lines|
  {
    if lines != [] {
      TrimTrimmed(lines[0]);
      ParseTidyLines(lines[1..], entries[1..]);
      assert entries == [entries[0]] + entries[1..];
    }
  }

  lemma ParseListLines(certs: seq<Cert>, dates: seq<seq<string>>)
    requires AllListable(certs, dates)
    ensures ParseLines(LinesWith(ListLine, certs)) == Parsed(AllShown(certs))
  {
    LinesAt(ListLine, certs);
    forall i | 0 <= i < |certs|
      ensures Trimmed(LinesWith(ListLine, certs)[i]) &&
              ParseLine(LinesWith(ListLine, certs)[i]) == Some(AllShown(certs)[i])
    {
      ListLineTidy(certs[i], dates[i]);
      ParseListLine(certs[i], dates[i]);
    }
    ParseTidyLines(LinesWith(ListLine, certs), AllShown(certs));
  }

  lemma {:induction false} JoinTrimmed(lines: seq<string>)
    requires lines != [] && forall i :: 0 <= i < |lines| ==> Trimmed(lines[i])
    ensures Trimmed(Join(lines, "\n")) && Join(lines, "\n")[0] == lines[0][0]
    decreases |lines|
  {
    if |lines| > 1 {
      JoinTrimmed(lines[1..]);
      var joined, others := Join(lines, "\n"), Join(lines[1..], "\n");
      assert joined[|joined| - 1] == others[|others| - 1];
    }
  }

  lemma HeadingOneLine()
    ensures OneLine(HEADING)
  {
    PadRightOneLine("State", 7);
    PadRightOneLine("Hostname", 16);
    PadRightOneLine("Certificate ID", 15);
    PadRightOneLine("Expiration date", 25);
  }

  lemma HeadingTidy()
    ensures Tidy(HEADING) && Contains(HEADING, "Frontend")
  {
    HeadingOneLine();
    var last := "OCSP stapling";
    assert HEADING[0] == 'F' && HEADING[|HEADING| - 1] == last[|last| - 1];
    assert "Frontend" <= HEADING;
  }

  /** For every list of certificates, in whatever order the map is walked: parsing the mock's padded listing gives
      the same certificates, an empty frontend becoming `default`. */
  lemma ListingRoundTrip(certs: seq<Cert>, dates: seq<seq<string>>)
    requires AllListable(certs, dates)
    ensures ParseList(Listing(certs)) == Parsed(AllShown(certs))
  {
    var lines := [HEADING] + LinesWith(ListLine, certs);
    assert Listing(certs) == Join(lines, "\n");
    HeadingTidy();
    LinesAt(ListLine, certs);
    forall i | 0 <= i < |lines| ensures Tidy(lines[i]) {
      if i > 0 {
        ListLineTidy(certs[i - 1], dates[i - 1]);
      }
    }
    JoinTrimmed(lines);
    TrimTrimmed(Join(lines, "\n"));
    SplitJoin(lines, '\n');
    assert lines[1..] == LinesWith(ListLine, certs);
    ParseListLines(certs, dates);
  }

  // ---------------------------------------------------------------- the columns

  /** Five padded columns and a last one, for any texts that fit. */
  lemma ColumnsStart(f: string, a: string, b: string, c: string, d: string, e: string)
    requires |f| == 8 && |a| == 7 && |b| == 16 && |c| == 15 && |d| == 25
    ensures var line := f + " " + a + " " + b + " " + c + " " + d + " " + e;
            && |line| == 76 + |e| && f == line[..8] && a == line[9..16] && b == line[17..33] && c == line[34..49]
            && d == line[50..75] && e == line[76..]
  {
  }

  /** The titles and where they start. */
  lemma HeadingColumns()
    ensures |HEADING| == 89 && HEADING[..8] == "Frontend" && HEADING[76..] == "OCSP stapling"
    ensures "State" <= HEADING[9..16] && "Hostname" <= HEADING[17..33]
    ensures "Certificate ID" <= HEADING[34..49] && "Expiration date" <= HEADING[50..75]
  {
    ColumnsStart("Frontend", PadRight("State", 7), PadRight("Hostname", 16), PadRight("Certificate ID", 15),
                 PadRight("Expiration date", 25), "OCSP stapling");
    PadRightShape("State", 7);
    PadRightShape("Hostname", 16);
    PadRightShape("Certificate ID", 15);
    PadRightShape("Expiration date", 25);
  }

  /** Where every column is wide enough, the columns start below their titles. */
  lemma ColumnsAlign(c: Cert)
    requires |c.frontend| <= 8 && |c.state| <= 7 && |c.hostname| <= 16 && |c.id| <= 15 && |c.expiration| <= 25
    ensures var line := ListLine(c);
            && |line| == 76 + (if c.ocspStapling then 4 else 5)
            && (if c.frontend == "" then "default" else c.frontend) <= line[..8]
            && c.state <= line[9..16] && c.hostname <= line[17..33] && c.id <= line[34..49]
            && c.expiration <= line[50..75] && line[76..] == if c.ocspStapling then "true" else "false"
  {
    PadRightShape(ShownFrontend(c), 8);
    PadRightShape(c.state, 7);
    PadRightShape(c.hostname, 16);
    PadRightShape(c.id, 15);
    PadRightShape(c.expiration, 25);
    ColumnsStart(PadRight(ShownFrontend(c), 8), PadRight(c.state, 7), PadRight(c.hostname, 16), PadRight(c.id, 15),
                 PadRight(c.expiration, 25), if c.ocspStapling then "true" else "false");
  }

  // ---------------------------------------------------------------- lines in general

  /** A line of ten words or more is read by position, whatever the blanks; further words are ignored.  Stapling is
      spelled true or enabled, in any case of its letters. */
  lemma LineByWords(s: Spaced)
    requires Proper(s)
    ensures var w := SpacedWords(s);
            if |w| < 10 then ParseLine(Spelled(s)) == None
            else
              && ParseLine(Spelled(s)).Some?
              && var c := ParseLine(Spelled(s)).value;
                 && c.frontend == w[0] && c.state == w[1] && c.hostname == w[2] && c.id == w[3]
                 && c.expiration == Join([w[4], w[5], w[6], w[7], w[8]], " ")
                 && (c.ocspStapling <==> LowerCase(w[9]) == "true" || LowerCase(w[9]) == "enabled")
  {
    FieldsAreWords(s);
    var w := SpacedWords(s);
    if |w| >= 10 {
      assert w[4..9] == [w[4], w[5], w[6], w[7], w[8]];
    }
  }

  lemma CaseIgnored()
    ensures LowerCase("TRUE") == LowerCase("True") == LowerCase("true") == "true"
    ensures LowerCase("ENABLED") == LowerCase("Enabled") == "enabled"
    ensures LowerCase("False") == "false"
  {
  }

  /** The first line is passed over exactly when it is a heading. */
  lemma HeadingIsOptional(lines: seq<string>)
    requires lines != [] && forall i :: 0 <= i < |lines| ==> Tidy(lines[i])
    ensures ParseList(Join(lines, "\n"))
            == ParseLines(if exists before :: OccursAfter(lines[0], "Frontend", before) then lines[1..] else lines)
  {
    ContainsExactly(lines[0], "Frontend");
    JoinTrimmed(lines);
    TrimTrimmed(Join(lines, "\n"));
    SplitJoin(lines, '\n');
  }

  /** Lines that can be read, blank lines among them, and then one of too few words: the whole list is refused. */
  lemma {:induction false} ShortLineRefused(lines: seq<string>, entries: seq<Cert>, short: string, rest: seq<string>)
    requires ParseLines(lines) == Parsed(entries)
    requires Trimmed(short) && ParseLine(short) == None
    ensures ParseLines(lines + ([short] + rest)) == Insufficient(short)
    decreases |lines|
  {
    if lines == [] {
      assert lines + ([short] + rest) == [short] + rest;
      TrimTrimmed(short);
    } else {
      assert (lines + ([short] + rest))[1..] == lines[1..] + ([short] + rest);
      ShortLineRefused(lines[1..], ParseLines(lines[1..]).entries, short, rest);
    }
  }

  // ---------------------------------------------------------------- from the committed map

  /** A walk over the map: every key once. */
  ghost predicate Walk(certs: Certs, order: seq<string>) {
    && (forall i, j :: 0 <= i < j < |order| ==> order[i] != order[j])
    && (forall id :: id in certs <==> id in order)
  }

  lemma {:induction false} InOrderOf(certs: Certs, order: seq<string>)
    requires forall i :: 0 <= i < |order| ==> order[i] in certs
    ensures |InOrder(certs, order)| == |order|
    ensures forall i :: 0 <= i < |order| ==> InOrder(certs, order)[i] == certs[order[i]]
    decreases |order|
  {
    if order != [] {
      InOrderOf(certs, order[1..]);
    }
  }

  /** The parsed list holds, for each committed certificate, what a listing shows of it, once and in the order of
      the walk, and nothing else. */
  lemma CommittedRoundTrip(st: TlsState, now: Moment, dates: map<string, seq<string>>)
    requires Walk(st.committed, now.order)
    requires forall id :: id in st.committed ==> id in dates && Listable(st.committed[id], dates[id])
    ensures var parsed := ParseList(List(st, now).payload);
            && parsed.Parsed? && |parsed.entries| == |now.order|
            && forall i :: 0 <= i < |now.order| ==> parsed.entries[i] == Shown(st.committed[now.order[i]])
  {
    var certs := InOrder(st.committed, now.order);
    InOrderOf(st.committed, now.order);
    var ds := seq(|certs|, i requires 0 <= i < |certs| => dates[now.order[i]]);
    assert AllListable(certs, ds);
    ListingRoundTrip(certs, ds);
  }
}
