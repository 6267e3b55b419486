/** Text handling shared by the parsers.  A char stands for one byte; white space is ASCII white space. */
module Text {
  import opened Common

  const MAX_INT := 0x7fff_ffff_ffff_ffff

  predicate IsSpace(c: char) {
    c == ' ' || 9 <= c as int <= 13
  }

  predicate IsDigit(c: char) {
    '0' <= c <= '9'
  }

  /** White space is the blank, tab, newline, vertical tab, form feed and carriage return; digits are the ten digits. */
  lemma Characters(c: char)
    ensures IsSpace(c) <==> c as int in {32, 9, 10, 11, 12, 13}
    ensures IsDigit(c) <==> c in "0123456789"
  {
    var digits := "0123456789";
    if IsDigit(c) {
      assert digits[c as int - 48] == c;
    }
  }

  predicate NoSpace(s: string) {
    forall i :: 0 <= i < |s| ==> !IsSpace(s[i])
  }

  predicate AllSpace(s: string) {
    forall i :: 0 <= i < |s| ==> IsSpace(s[i])
  }

  predicate AllDigits(s: string) {
    forall i :: 0 <= i < |s| ==> IsDigit(s[i])
  }

  predicate OneLine(s: string) {
    '\n' !in s
  }

  // ---------------------------------------------------------------- trimming

  function TrimLeft(s: string): string {
    if s != [] && IsSpace(s[0]) then TrimLeft(s[1..]) else s
  }

  function TrimRight(s: string): string {
    if s != [] && IsSpace(s[|s| - 1]) then TrimRight(s[..|s| - 1]) else s
  }

  function Trim(s: string): string {
    TrimRight(TrimLeft(s))
  }

  /** Not empty, with no white space at either end. */
  predicate Trimmed(s: string) {
    s != [] && !IsSpace(s[0]) && !IsSpace(s[|s| - 1])
  }

  lemma {:induction false} TrimRightPadding(s: string, pad: string)
    requires AllSpace(pad) && (s == [] || !IsSpace(s[|s| - 1]))
    ensures TrimRight(s + pad) == s
    decreases |pad|
  {
    if pad == [] {
      assert s + pad == s;
    } else {
      assert (s + pad)[..|s + pad| - 1] == s + pad[..|pad| - 1];
      TrimRightPadding(s, pad[..|pad| - 1]);
    }
  }

  lemma TrimPadded(s: string, pad: string)
    requires Trimmed(s) && AllSpace(pad)
    ensures Trim(s + pad) == s
  {
    TrimRightPadding(s, pad);
  }

  lemma {:induction false} TrimLeftPadding(pad: string, s: string)
    requires AllSpace(pad) && (s == [] || !IsSpace(s[0]))
    ensures TrimLeft(pad + s) == s
    decreases |pad|
  {
    if pad == [] {
      assert pad + s == s;
    } else {
      assert (pad + s)[1..] == pad[1..] + s;
      TrimLeftPadding(pad[1..], s);
    }
  }

  /** Trimming removes exactly the white space around a text. */
  lemma TrimBoth(before: string, s: string, after: string)
    requires AllSpace(before) && AllSpace(after) && Trimmed(s)
    ensures Trim(before + (s + after)) == s
  {
    TrimLeftPadding(before, s + after);
    TrimRightPadding(s, after);
  }

  lemma TrimTrimmed(s: string)
    requires Trimmed(s)
    ensures Trim(s) == s
  {
  }

  // ---------------------------------------------------------------- decimal numbers

  const DIGITS := "0123456789"

  function Digit(n: nat): char
    requires n < 10
  {
    ('0' as int + n) as char
  }

  function Decimal(n: nat): string {
    if n < 10 then [Digit(n)] else Decimal(n / 10) + [Digit(n % 10)]
  }

  function DigitsValue(s: string): nat
    requires AllDigits(s)
  {
    if s == [] then 0 else 10 * DigitsValue(s[..|s| - 1]) + (s[|s| - 1] as int - '0' as int)
  }

  /** Decimal numbers are non-empty runs of digits, and reading one back gives the number. */
  lemma {:induction false} DecimalRoundTrip(n: nat)
    ensures Decimal(n) != [] && AllDigits(Decimal(n)) && DigitsValue(Decimal(n)) == n
  {
    if n < 10 {
      assert Decimal(n)[..0] == [];
    } else {
      DecimalRoundTrip(n / 10);
      var d := Decimal(n);
      assert d[..|d| - 1] == Decimal(n / 10);
      assert forall i :: 0 <= i < |d| - 1 ==> d[i] == Decimal(n / 10)[i];
    }
  }

  /** The digits of a number, the last one first. */
  lemma DecimalDigits(n: nat, d: nat)
    requires d < 10
    ensures Decimal(d) == [DIGITS[d]]
    ensures n > 0 ==> Decimal(10 * n + d) == Decimal(n) + [DIGITS[d]]
  {
    assert DIGITS[d] == Digit(d);
  }

  function Power10(k: nat): nat {
    if k == 0 then 1 else 10 * Power10(k - 1)
  }

  lemma {:induction false} DecimalWidth(n: nat, k: nat)
    requires n < Power10(k) && k > 0
    ensures |Decimal(n)| <= k
    decreases k
  {
    if n >= 10 {
      DecimalWidth(n / 10, k - 1);
    }
  }

  lemma DigitsAreNotSpace(s: string)
    requires AllDigits(s)
    ensures NoSpace(s)
  {
    forall i | 0 <= i < |s| ensures !IsSpace(s[i]) {
      assert IsDigit(s[i]);
    }
  }

  /** Decimal text to a machine integer: an optional sign, then digits; none when empty, malformed or out of
      range. */
  function Atoi(s: string): Option<int> {
    var negative := s != [] && s[0] == '-';
    var digits := if s != [] && (s[0] == '-' || s[0] == '+') then s[1..] else s;
    if digits == [] || !AllDigits(digits) then None
    else
      var n: int := DigitsValue(digits);
      if negative then (if n <= MAX_INT + 1 then Some(-n) else None)
      else if n <= MAX_INT then Some(n) else None
  }

  lemma AtoiDecimal(n: nat)
    requires n <= MAX_INT
    ensures Atoi(Decimal(n)) == Some(n)
  {
    DecimalRoundTrip(n);
    assert IsDigit(Decimal(n)[0]);
  }

  lemma AtoiDigits(digits: string, n: int)
    requires digits != "" && AllDigits(digits) && n == DigitsValue(digits)
    ensures Atoi(digits) == if n <= MAX_INT then Some(n) else None
    ensures Atoi("+" + digits) == if n <= MAX_INT then Some(n) else None
    ensures Atoi("-" + digits) == if n <= MAX_INT + 1 then Some(-n) else None
  {
    assert IsDigit(digits[0]);
    assert ("+" + digits)[1..] == digits && ("-" + digits)[1..] == digits;
  }

  /** Signs, and numbers that are no machine integers. */
  lemma AtoiSigned(n: nat)
    ensures Atoi("+" + Decimal(n)) == Atoi(Decimal(n))
    ensures var m: int := n; Atoi("-" + Decimal(n)) == if m <= 9223372036854775808 then Some(-m) else None
    ensures n > 9223372036854775807 ==> Atoi(Decimal(n)) == None
  {
    DecimalRoundTrip(n);
    AtoiDigits(Decimal(n), n);
  }

  /** A text that is no number: after any sign it is empty or has a character that is no digit. */
  predicate NoNumber(text: string) {
    || text == "" || text == "-" || text == "+"
    || (exists i :: 0 < i < |text| && !IsDigit(text[i]))
    || !(IsDigit(text[0]) || text[0] == '-' || text[0] == '+')
  }

  lemma NoNumberReads(text: string)
    requires NoNumber(text)
    ensures Atoi(text) == None
  {
    if i :| 0 < i < |text| && !IsDigit(text[i]) {
      assert text[1..][i - 1] == text[i];
    }
  }

  // ---------------------------------------------------------------- padding

  function Spaces(n: nat): string {
    seq(n, _ => ' ')
  }

  /** Left-justified in a column of the given width; longer text is kept whole. */
  function PadRight(s: string, width: nat): string {
    if |s| < width then s + Spaces(width - |s|) else s
  }

  lemma PadRightShape(s: string, width: nat)
    ensures s <= PadRight(s, width) && |PadRight(s, width)| == if |s| < width then width else |s|
    ensures forall i :: |s| <= i < |PadRight(s, width)| ==> PadRight(s, width)[i] == ' '
  {
  }

  lemma TrimPadRight(s: string, width: nat)
    requires Trimmed(s)
    ensures Trim(PadRight(s, width)) == s
  {
    if |s| < width {
      TrimPadded(s, Spaces(width - |s|));
    } else {
      TrimTrimmed(s);
    }
  }

  // ---------------------------------------------------------------- fields

  function WordLength(s: string): (n: nat)
    ensures n <= |s|
  {
    if s != [] && !IsSpace(s[0]) then 1 + WordLength(s[1..]) else 0
  }

  /** The words between runs of white space. */
  function Fields(s: string): seq<string>
    decreases |s|
  {
    if s == [] then []
    else if IsSpace(s[0]) then Fields(s[1..])
    else [s[..WordLength(s)]] + Fields(s[WordLength(s)..])
  }

  predicate Word(s: string) {
    s != "" && NoSpace(s)
  }

  lemma {:induction false} WordLengthOf(word: string, rest: string)
    requires NoSpace(word) && (rest == "" || IsSpace(rest[0]))
    ensures WordLength(word + rest) == |word|
    decreases |word|
  {
    if word == [] {
      assert word + rest == rest;
    } else {
      assert (word + rest)[1..] == word[1..] + rest;
      WordLengthOf(word[1..], rest);
    }
  }

  lemma FieldsWord(word: string, rest: string)
    requires Word(word) && (rest == "" || IsSpace(rest[0]))
    ensures Fields(word + rest) == [word] + Fields(rest)
  {
    WordLengthOf(word, rest);
    var s := word + rest;
    assert s[..|word|] == word && s[|word|..] == rest;
  }

  lemma {:induction false} FieldsPadding(pad: string, rest: string)
    requires AllSpace(pad)
    ensures Fields(pad + rest) == Fields(rest)
    decreases |pad|
  {
    if pad == [] {
      assert pad + rest == rest;
    } else {
      assert (pad + rest)[1..] == pad[1..] + rest;
      FieldsPadding(pad[1..], rest);
    }
  }

  /** A padded column followed by a blank contributes its word. */
  lemma FieldsColumn(word: string, width: nat, rest: string)
    requires Word(word)
    ensures Fields(PadRight(word, width) + " " + rest) == [word] + Fields(rest)
  {
    var pad := if |word| < width then Spaces(width - |word|) else "";
    assert PadRight(word, width) == word + pad;
    assert PadRight(word, width) + " " + rest == word + ((pad + " ") + rest);
    FieldsWord(word, (pad + " ") + rest);
    FieldsPadding(pad + " ", rest);
  }

  /** Words with blanks between and around them. */
  datatype Spaced = End(blanks: string) | More(blanks: string, word: string, rest: Spaced)

  function Spelled(s: Spaced): string {
    match s
    case End(blanks) => blanks
    case More(blanks, word, rest) => blanks + (word + Spelled(rest))
  }

  function SpacedWords(s: Spaced): seq<string> {
    match s
    case End(_) => []
    case More(_, word, rest) => [word] + SpacedWords(rest)
  }

  /** Blanks are blank, words are words, and two words do not touch. */
  predicate Proper(s: Spaced) {
    match s
    case End(blanks) => AllSpace(blanks)
    case More(blanks, word, rest) =>
      && AllSpace(blanks) && Word(word) && Proper(rest)
      && (rest.More? ==> rest.blanks != "")
  }

  /** The fields of a text are its words, whatever the blanks. */
  lemma {:induction false} FieldsAreWords(s: Spaced)
    requires Proper(s)
    ensures Fields(Spelled(s)) == SpacedWords(s)
    decreases s
  {
    match s
    case End(blanks) =>
      assert blanks + "" == blanks;
      FieldsPadding(blanks, "");
    case More(blanks, word, rest) =>
      FieldsAreWords(rest);
      if rest.End? && rest.blanks == "" {
        assert Spelled(rest) == "";
      } else {
        assert IsSpace(Spelled(rest)[0]) by {
          assert Spelled(rest)[0] == rest.blanks[0];
        }
      }
      FieldsWord(word, Spelled(rest));
      FieldsPadding(blanks, word + Spelled(rest));
  }

  // ---------------------------------------------------------------- lines

  function Split(s: string, sep: char): (parts: seq<string>)
    ensures |parts| > 0
  {
    if s == [] then [""]
    else
      var rest := Split(s[1..], sep);
      if s[0] == sep then [""] + rest else [[s[0]] + rest[0]] + rest[1..]
  }

  function Join(parts: seq<string>, sep: string): string {
    if parts == [] then "" else if |parts| == 1 then parts[0] else parts[0] + sep + Join(parts[1..], sep)
  }

  lemma {:induction false} SplitFirst(line: string, rest: string, sep: char)
    requires sep !in line
    ensures Split(line + [sep] + rest, sep) == [line] + Split(rest, sep)
    decreases |line|
  {
    if line == [] {
      assert line + [sep] + rest == [sep] + rest;
      assert ([sep] + rest)[1..] == rest;
    } else {
      assert (line + [sep] + rest)[1..] == line[1..] + [sep] + rest;
      SplitFirst(line[1..], rest, sep);
      assert [line[0]] + line[1..] == line;
      assert ([line[1..]] + Split(rest, sep))[1..] == Split(rest, sep);
    }
  }

  lemma {:induction false} SplitNone(line: string, sep: char)
    requires sep !in line
    ensures Split(line, sep) == [line]
    decreases |line|
  {
    if line != [] {
      SplitNone(line[1..], sep);
      assert [line[0]] + line[1..] == line;
    }
  }

  /** Splitting joined lines gives the lines back. */
  lemma {:induction false} SplitJoin(lines: seq<string>, sep: char)
    requires lines != [] && forall i :: 0 <= i < |lines| ==> sep !in lines[i]
    ensures Split(Join(lines, [sep]), sep) == lines
    decreases |lines|
  {
    if |lines| == 1 {
      SplitNone(lines[0], sep);
    } else {
      var rest := Join(lines[1..], [sep]);
      SplitJoin(lines[1..], sep);
      SplitFirst(lines[0], rest, sep);
      assert Join(lines, [sep]) == lines[0] + [sep] + rest;
      assert lines == [lines[0]] + lines[1..];
    }
  }

  /** Whether the word occurs in the text. */
  function Contains(s: string, word: string): bool {
    word <= s || (s != "" && Contains(s[1..], word))
  }

  ghost predicate OccursAfter(s: string, word: string, before: string) {
    exists after :: JoinsTo(s, before, word, after)
  }

  predicate JoinsTo(s: string, before: string, word: string, after: string) {
    s == before + (word + after)
  }

  /** Whether the word occurs anywhere in the text. */
  lemma {:induction false} ContainsExactly(s: string, word: string)
    ensures Contains(s, word) <==> exists before :: OccursAfter(s, word, before)
    decreases |s|
  {
    if word <= s {
      assert JoinsTo(s, "", word, s[|word|..]);
      assert OccursAfter(s, word, "");
    } else if s != "" {
      ContainsExactly(s[1..], word);
      if before :| OccursAfter(s[1..], word, before) {
        var after :| JoinsTo(s[1..], before, word, after);
        assert JoinsTo(s, [s[0]] + before, word, after);
        assert OccursAfter(s, word, [s[0]] + before);
      }
      if before :| OccursAfter(s, word, before) {
        OccursLater(s, word, before);
      }
    }
  }

  lemma OccursLater(s: string, word: string, before: string)
    requires s != "" && !(word <= s) && OccursAfter(s, word, before)
    ensures exists shorter :: OccursAfter(s[1..], word, shorter)
  {
    var after :| JoinsTo(s, before, word, after);
    assert "" + (word + after) == word + after;
    assert s[1..] == before[1..] + (word + after);
    assert JoinsTo(s[1..], before[1..], word, after);
    assert OccursAfter(s[1..], word, before[1..]);
  }
}
