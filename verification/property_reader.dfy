/** Reading a properties file line by line (src/property_file_reader.rs):
    the delimiter, `process_line` with its comment and multi-line rules, and
    the loop over the file's lines.  Building the tree from the collected
    map is in module PropertyForest. */
module PropertyReader {
  import opened Outcomes
  import opened Strings
  import opened Lines

  datatype Delimiter = Equals | Colon | Whitespace

  /** `Delimiter::value`. */
  function DelimiterChar(d: Delimiter): char {
    match d
    case Equals => '='
    case Colon => ':'
    case Whitespace => ' '
  }

  /** `Display for Delimiter` (the derived `Debug` text). */
  function DelimiterName(d: Delimiter): string {
    match d
    case Equals => "Equals"
    case Colon => "Colon"
    case Whitespace => "Whitespace"
  }

  /** `FromStr for Delimiter`: the three delimiter characters, and `Equals`
      for any other text; it never fails. */
  function DelimiterFromStr(input: string): (r: Result<Delimiter, string>)
    ensures r.Ok?
    ensures r.value == Colon ==> input == ":"
    ensures r.value == Whitespace ==> input == " "
  {
    var lower := ToLower(input);
    if lower == "=" then Ok(Equals)
    else if lower == ":" then
      assert input[0] == ':';
      Ok(Colon)
    else if lower == " " then
      assert input[0] == ' ';
      Ok(Whitespace)
    else Ok(Equals)
  }

  /** Parsing the delimiter's own character gives the delimiter back. */
  lemma DelimiterRoundTrip(d: Delimiter)
    ensures DelimiterFromStr([DelimiterChar(d)]) == Ok(d)
  {
    assert ToLower([DelimiterChar(d)]) == [DelimiterChar(d)];
  }

  /** The displayed name is not accepted back: every name reads as `Equals`. */
  lemma DelimiterNameReadsAsEquals(d: Delimiter)
    ensures DelimiterFromStr(DelimiterName(d)) == Ok(Equals)
  {
    assert |ToLower(DelimiterName(d))| > 1;
  }

  /** The reader's state: the properties read so far by (trimmed) key, and
      `lastKey`, the key of the last keyed line whose value ended in an odd
      run of backslashes, kept until a continuation is absorbed ("" when
      none).  A later keyed line that does not continue leaves it in place,
      and "" can itself be a stored key. */
  datatype Reader = Reader(content: map<string, Line>, lastKey: string)

  /** `PropertyFileReader::new`. */
  const Initial := Reader(map[], "")

  /** `consider_multiline`. */
  predicate ConsiderMultiline(r: Reader) {
    r.lastKey != ""
  }

  predicate StartsWithChar(s: string, c: char) {
    |s| > 0 && s[0] == c
  }

  /** Number of backslashes at the end of the text. */
  function TrailingBackslashes(s: string): (n: nat)
    ensures n <= |s|
    ensures forall i :: |s| - n <= i < |s| ==> s[i] == '\\'
    ensures n < |s| ==> s[|s| - 1 - n] != '\\'
  {
    if s != [] && s[|s| - 1] == '\\' then 1 + TrailingBackslashes(s[..|s| - 1]) else 0
  }

  /** A value continues on the next line when it ends in an odd number of
      backslashes (an even number are escaped backslashes). */
  predicate IsMultiline(value: string) {
    TrailingBackslashes(value) % 2 == 1
  }

  /** `is_multiline`: the early return and the backwards counting loop. */
  method IsMultilineLoop(value: string) returns (multi: bool)
    ensures multi <==> IsMultiline(value)
  {
    if !(|value| > 0 && value[|value| - 1] == '\\') {
      return false;
    }
    var counter := 0;
    var i := |value|;
    while i > 0
      invariant 0 <= i <= |value|
      invariant counter == |value| - i
      invariant forall j :: i <= j < |value| ==> value[j] == '\\'
      invariant counter <= TrailingBackslashes(value)
    {
      if value[i - 1] != '\\' {
        break;
      }
      counter := counter + 1;
      i := i - 1;
    }
    assert counter == TrailingBackslashes(value);
    multi := counter % 2 == 1;
  }

  /** `add`: store the line under its trimmed key; a previous line with
      that key is replaced. */
  function Add(r: Reader, key: string, value: string, lineNumber: nat): (r': Reader)
    ensures r'.lastKey == r.lastKey
    ensures r'.content.Keys == r.content.Keys + {TrimEnd(key)}
  {
    var line := NewLine(key, value, lineNumber);
    UpdateKeys(r.content, line.key, line);
    r.(content := r.content[line.key := line])
  }

  lemma UpdateKeys<K, V>(m: map<K, V>, k: K, v: V)
    ensures m[k := v].Keys == m.Keys + {k}
  {
  }

  /** `add_multiline`: append the line to the waiting value and stop
      waiting. */
  function AddContinuation(r: Reader, line: string): (r': Reader)
    requires r.lastKey in r.content
    ensures r'.lastKey == ""
    ensures r'.content.Keys == r.content.Keys
  {
    var joined := AddMultiline(r.content[r.lastKey], line);
    UpdateKeys(r.content, r.lastKey, joined);
    assert r.content.Keys + {r.lastKey} == r.content.Keys;
    r.(content := r.content[r.lastKey := joined], lastKey := "")
  }

  /** The key and value of a line: the text before and after the first
      delimiter, or two empty texts when there is no delimiter. */
  function KeyValue(line: string, d: Delimiter): (string, string) {
    match SplitOnce(line, DelimiterChar(d))
    case None => ("", "")
    case Some(kv) => kv
  }

  /** Lines `process_line` skips: empty lines, lines starting with '!', and
      lines starting with '#' unless a continuation is awaited. */
  predicate Ignored(r: Reader, line: string) {
    line == [] || (!ConsiderMultiline(r) && StartsWithChar(line, '#')) || StartsWithChar(line, '!')
  }

  /** `process_line`. */
  function ProcessLine(r: Reader, line: string, lineNumber: nat, d: Delimiter): Reader {
    if Ignored(r, line) then r
    else
      var (key, value) := KeyValue(line, d);
      if key == [] then
        if r.lastKey in r.content then AddContinuation(r, line)
        else Add(r, line, value, lineNumber)
      else
        var r' := if IsMultiline(value) then r.(lastKey := TrimEnd(key)) else r;
        Add(r', key, value, lineNumber)
  }

  /** The loop of `PropertyFileReader::parse`: every line in order,
      numbered from `lineNumber`. */
  function ReadLines(r: Reader, lines: seq<string>, lineNumber: nat, d: Delimiter): Reader
    decreases |lines|
  {
    if lines == [] then r
    else ReadLines(ProcessLine(r, lines[0], lineNumber, d), lines[1..], lineNumber + 1, d)
  }

  /** All lines of a file, numbered from 1. */
  function ReadFile(lines: seq<string>, d: Delimiter): Reader {
    ReadLines(Initial, lines, 1, d)
  }

  /** Every line is stored under its own key; keys have no trailing and
      values no leading whitespace. */
  predicate ValidContent(content: map<string, Line>) {
    forall k :: k in content ==> content[k].key == k && TrimmedEnd(k) && TrimmedStart(content[k].value)
  }

  /** What the reader keeps true: valid content, and a waiting key is one
      that is stored. */
  predicate Valid(r: Reader) {
    ValidContent(r.content) && (r.lastKey == "" || r.lastKey in r.content)
  }

  lemma UpdateValid(content: map<string, Line>, key: string, line: Line)
    requires ValidContent(content)
    requires line.key == key && TrimmedEnd(key) && TrimmedStart(line.value)
    ensures ValidContent(content[key := line])
  {
  }

  lemma AddValid(r: Reader, key: string, value: string, lineNumber: nat)
    requires ValidContent(r.content)
    ensures ValidContent(Add(r, key, value, lineNumber).content)
  {
    var line := NewLine(key, value, lineNumber);
    UpdateValid(r.content, line.key, line);
  }

  lemma AddContinuationValid(r: Reader, line: string)
    requires ValidContent(r.content) && r.lastKey in r.content
    ensures ValidContent(AddContinuation(r, line).content)
  {
    var waiting := r.content[r.lastKey];
    AddMultilineTrimmed(waiting, line);
    UpdateValid(r.content, r.lastKey, AddMultiline(waiting, line));
  }

  lemma ProcessLineValid(r: Reader, line: string, lineNumber: nat, d: Delimiter)
    requires Valid(r)
    ensures Valid(ProcessLine(r, line, lineNumber, d))
  {
    if !Ignored(r, line) {
      var kv := KeyValue(line, d);
      var key, value := kv.0, kv.1;
      if key == [] {
        if r.lastKey in r.content {
          AddContinuationValid(r, line);
        } else {
          AddValid(r, line, value, lineNumber);
        }
      } else {
        var r' := if IsMultiline(value) then r.(lastKey := TrimEnd(key)) else r;
        AddValid(r', key, value, lineNumber);
      }
    }
  }

  lemma {:induction false} ReadLinesValid(r: Reader, lines: seq<string>, lineNumber: nat, d: Delimiter)
    requires Valid(r)
    ensures Valid(ReadLines(r, lines, lineNumber, d))
    decreases |lines|
  {
    if lines != [] {
      ProcessLineValid(r, lines[0], lineNumber, d);
      ReadLinesValid(ProcessLine(r, lines[0], lineNumber, d), lines[1..], lineNumber + 1, d);
    }
  }

  /** Reading a whole file yields a valid reader. */
  lemma ReadFileValid(lines: seq<string>, d: Delimiter)
    ensures Valid(ReadFile(lines, d))
  {
    ReadLinesValid(Initial, lines, 1, d);
  }

  /** Empty lines, '!' lines, and '#' lines while no continuation is
      awaited change nothing. */
  lemma IgnoredLines(r: Reader, line: string, lineNumber: nat, d: Delimiter)
    requires line == [] || StartsWithChar(line, '!') || (r.lastKey == "" && StartsWithChar(line, '#'))
    ensures ProcessLine(r, line, lineNumber, d) == r
  {
  }

  /** A line with text before its first delimiter stores the trimmed text
      before it as the key and the trimmed text after it as the value,
      replacing any earlier line with that key and touching no other key;
      an odd run of trailing backslashes makes the key wait for a
      continuation. */
  lemma KeyValueLine(r: Reader, before: string, after: string, lineNumber: nat, d: Delimiter)
    requires before != [] && DelimiterChar(d) !in before
    requires !Ignored(r, before + [DelimiterChar(d)] + after)
    ensures var r' := ProcessLine(r, before + [DelimiterChar(d)] + after, lineNumber, d);
      && r'.content == r.content[TrimEnd(before) := NewLine(before, after, lineNumber)]
      && r'.lastKey == if IsMultiline(after) then TrimEnd(before) else r.lastKey
  {
    KeyValueAtFirst(before, after, d);
    KeyedLine(r, before + [DelimiterChar(d)] + after, before, after, lineNumber, d);
  }

  /** `process_line` on a line whose key is not empty. */
  lemma KeyedLine(r: Reader, line: string, key: string, value: string, lineNumber: nat, d: Delimiter)
    requires !Ignored(r, line) && KeyValue(line, d) == (key, value) && key != []
    ensures var r' := ProcessLine(r, line, lineNumber, d);
      && r'.content == r.content[TrimEnd(key) := NewLine(key, value, lineNumber)]
      && r'.lastKey == if IsMultiline(value) then TrimEnd(key) else r.lastKey
  {
    var r1 := if IsMultiline(value) then r.(lastKey := TrimEnd(key)) else r;
    assert ProcessLine(r, line, lineNumber, d) == Add(r1, key, value, lineNumber);
  }

  /** The text before and after the first delimiter. */
  lemma KeyValueAtFirst(before: string, after: string, d: Delimiter)
    requires DelimiterChar(d) !in before
    ensures KeyValue(before + [DelimiterChar(d)] + after, d) == (before, after)
  {
    var c := DelimiterChar(d);
    var line := before + [c] + after;
    IndexOfPrefix(before, c, after);
    assert line[..|before|] == before;
    assert line[|before| + 1..] == after;
  }

  /** A line without text before its first delimiter has an empty key. */
  lemma KeyValueNoKey(line: string, d: Delimiter)
    requires DelimiterChar(d) !in line || (line != [] && line[0] == DelimiterChar(d))
    ensures KeyValue(line, d) == ("", if DelimiterChar(d) in line then line[1..] else "")
  {
    var c := DelimiterChar(d);
    if c in line {
      KeyValueAtFirst([], line[1..], d);
      assert [] + [c] + line[1..] == line;
    }
  }

  /** A line with nothing before its first delimiter (or without one) while
      the pending key `lastKey` is a stored key (which includes "" once a
      keyless line has stored it): the line, without its leading whitespace,
      replaces the last character of that key's value, and `lastKey` is
      cleared. */
  lemma ContinuationLine(r: Reader, line: string, lineNumber: nat, d: Delimiter)
    requires !Ignored(r, line)
    requires DelimiterChar(d) !in line || line[0] == DelimiterChar(d)
    requires r.lastKey in r.content
    ensures var r' := ProcessLine(r, line, lineNumber, d);
      && r'.content == r.content[r.lastKey := AddMultiline(r.content[r.lastKey], line)]
      && r'.lastKey == ""
  {
    KeyValueNoKey(line, d);
  }

  /** The pending key is not cleared by a later key line whose value does
      not continue: a following line without a key, even one starting with
      '#', is still appended to the earlier key's value. */
  lemma StaleKeyContinues(r: Reader, before: string, after: string, line: string, lineNumber: nat, d: Delimiter)
    requires r.lastKey != "" && r.lastKey in r.content
    requires before != [] && DelimiterChar(d) !in before && !StartsWithChar(before, '!')
    requires !IsMultiline(after)
    requires line != [] && DelimiterChar(d) !in line && !StartsWithChar(line, '!')
    ensures var r1 := ProcessLine(r, before + [DelimiterChar(d)] + after, lineNumber, d);
      && r1.lastKey == r.lastKey
      && r1.content.Keys == r.content.Keys + {TrimEnd(before)}
      && ProcessLine(r1, line, lineNumber + 1, d).content == r1.content[r.lastKey := AddMultiline(r1.content[r.lastKey], line)]
  {
    var kv := before + [DelimiterChar(d)] + after;
    assert kv[0] == before[0];
    KeyValueLine(r, before, after, lineNumber, d);
    var r1 := ProcessLine(r, kv, lineNumber, d);
    UpdateKeys(r.content, TrimEnd(before), NewLine(before, after, lineNumber));
    ContinuationLine(r1, line, lineNumber + 1, d);
  }

  /** A line with nothing before its first delimiter (or without one) while
      the pending key `lastKey` is not a stored key: the whole line, trimmed
      at the end, becomes a key whose value is the text after the
      delimiter. */
  lemma KeyOnlyLine(r: Reader, line: string, lineNumber: nat, d: Delimiter)
    requires !Ignored(r, line)
    requires DelimiterChar(d) !in line || line[0] == DelimiterChar(d)
    requires r.lastKey !in r.content
    ensures var r' := ProcessLine(r, line, lineNumber, d);
      && r'.content == r.content[TrimEnd(line) := NewLine(line, if DelimiterChar(d) in line then line[1..] else "", lineNumber)]
      && r'.lastKey == r.lastKey
  {
    KeyValueNoKey(line, d);
  }
}
