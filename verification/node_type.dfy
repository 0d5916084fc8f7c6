/** The value a tree node carries (`NodeType` in src/node.rs) and the
    string classifier `NodeType::parse` with its printer `to_string`.
 */
module NodeTypes {
  import opened Strings

  datatype NodeType =
    | Boolean(flag: bool)
    | Numeric(text: string)    // the original text, not a re-formatted number
    | Str(text: string)
    | Object(text: string)     // text that starts with '{', kept verbatim
    | Array(items: seq<string>)
    | NoValue                  // `NONE`: an inner node whose payload is its children

  predicate IsDigit(c: char) {
    '0' <= c <= '9'
  }

  predicate AllDigits(s: string) {
    forall i :: 0 <= i < |s| ==> IsDigit(s[i])
  }

  function DropSign(s: string): string {
    if |s| > 0 && (s[0] == '+' || s[0] == '-') then s[1..] else s
  }

  /** `Exp ::= [eE] Sign? Digit+`, after the `e`. */
  predicate IsExponent(x: string) {
    var digits := DropSign(x);
    |digits| > 0 && AllDigits(digits)
  }

  /** `Digit+ | Digit+ '.' Digit* | Digit* '.' Digit+` */
  predicate IsMantissa(m: string) {
    var d := IndexOf(m, '.');
    if d == |m| then |m| > 0 && AllDigits(m)
    else AllDigits(m[..d]) && AllDigits(m[d + 1..]) && |m| > 1
  }

  predicate IsDecimal(t: string) {
    var e := IndexOf(ToLower(t), 'e');
    IsMantissa(t[..e]) && (e == |t| || IsExponent(t[e + 1..]))
  }

  /** Whether `str::parse::<f64>` (or, failing that, `parse::<usize>`, whose
      grammar `+? Digit+` is contained in the former) accepts the text:
      `Sign? ('inf' | 'infinity' | 'nan' | Number)`, case-insensitively. */
  predicate IsNumeric(s: string) {
    var body := DropSign(s);
    var lower := ToLower(body);
    lower == "inf" || lower == "infinity" || lower == "nan" || IsDecimal(body)
  }

  /** The lower-cased text is exactly "true" or "false". */
  predicate IsBooleanText(s: string) {
    ToLower(s) == "true" || ToLower(s) == "false"
  }

  /** `bool::to_string`, the text both document readers give a boolean. */
  function BoolText(b: bool): (r: string)
    ensures IsBooleanText(r)
  {
    if b then "true" else "false"
  }

  predicate StartsWithBrace(s: string) {
    |s| > 0 && s[0] == '{'
  }

  /** The pieces that are not empty, in order. */
  function NonEmpty(pieces: seq<string>): (r: seq<string>)
    ensures |r| <= |pieces|
    ensures forall k :: 0 <= k < |r| ==> r[k] != "" && r[k] in pieces
    ensures (forall k :: 0 <= k < |pieces| ==> pieces[k] != "") ==> r == pieces
  {
    if pieces == [] then []
    else if pieces[0] == "" then NonEmpty(pieces[1..])
    else [pieces[0]] + NonEmpty(pieces[1..])
  }

  /** `NodeType::parse`: boolean, then '{', then comma list, then number,
      else plain string; the first test that succeeds decides. */
  function Parse(value: string): (r: NodeType)
    ensures r != NoValue
    ensures r.Boolean? ==> (r.flag <==> ToLower(value) == "true")
    ensures r.Array? ==> ',' in value
    ensures r.Array? ==> forall k :: 0 <= k < |r.items| ==> r.items[k] != "" && ',' !in r.items[k]
    ensures r.Numeric? || r.Str? || r.Object? ==> r.text == value
  {
    if IsBooleanText(value) then Boolean(ToLower(value) == "true")
    else if StartsWithBrace(value) then Object(value)
    else if ',' in value then Array(NonEmpty(Split(value, ',')))
    else if IsNumeric(value) then Numeric(value)
    else Str(value)
  }

  /** `NodeType::to_string`. */
  function ToString(t: NodeType): string {
    match t
    case Str(v) => v
    case Numeric(v) => v
    case Boolean(b) => if b then "true" else "false"
    case Object(v) => v
    case Array(items) => Join(items, ",")
    case NoValue => ""
  }

  /** The loop of `to_string` for `ARRAY`: a comma before every element but
      the first. */
  method ArrayToString(items: seq<string>) returns (s: string)
    ensures s == ToString(Array(items))
    ensures |items| == 1 ==> s == items[0]
    ensures |items| == 0 ==> s == ""
  {
    s := "";
    var index := 0;
    while index < |items|
      invariant 0 <= index <= |items|
      invariant s == Join(items[..index], ",")
    {
      if index != 0 {
        s := s + ",";
      }
      JoinSnoc(items[..index], items[index], ",");
      assert items[..index + 1] == items[..index] + [items[index]];
      s := s + items[index];
      index := index + 1;
    }
    assert items[..index] == items;
  }

  lemma {:induction false} JoinSnoc(xs: seq<string>, x: string, sep: string)
    ensures Join(xs + [x], sep) == if xs == [] then x else Join(xs, sep) + sep + x
    decreases |xs|
  {
    if |xs| > 1 {
      assert (xs + [x])[1..] == xs[1..] + [x];
      JoinSnoc(xs[1..], x, sep);
    } else if |xs| == 1 {
      assert (xs + [x])[1..] == [x];
    }
  }

  function RemoveChar(s: string, c: char): (r: string)
    ensures c !in r
  {
    if s == [] then "" else (if s[0] == c then "" else [s[0]]) + RemoveChar(s[1..], c)
  }

  /** The boolean test: exactly the case-insensitive spellings of "true" and
      "false" become `BOOLEAN`, carrying the matching value. */
  lemma ParseBoolean(s: string)
    ensures Parse(s).Boolean? <==> IsBooleanText(s)
    ensures Parse(s) == Boolean(true) <==> ToLower(s) == "true"
    ensures Parse(s) == Boolean(false) <==> ToLower(s) == "false"
  {
  }

  /** The order of the tests in `parse`, stated as one decision table. */
  lemma ParseClassifies(s: string)
    ensures Parse(s).Object? <==> !IsBooleanText(s) && StartsWithBrace(s)
    ensures Parse(s).Array? <==> !IsBooleanText(s) && !StartsWithBrace(s) && ',' in s
    ensures Parse(s).Numeric? <==> !IsBooleanText(s) && !StartsWithBrace(s) && ',' !in s && IsNumeric(s)
    ensures Parse(s).Str? <==> !IsBooleanText(s) && !StartsWithBrace(s) && ',' !in s && !IsNumeric(s)
  {
  }

  /** An `ARRAY` from `parse` holds exactly the text between the commas: its
      elements concatenate to the input with the commas removed. */
  lemma ParseArrayContents(s: string)
    requires Parse(s).Array?
    ensures Concat(Parse(s).items) == RemoveChar(s, ',')
    ensures |Parse(s).items| <= |Split(s, ',')|
  {
    ConcatNonEmpty(Split(s, ','));
    ConcatSplit(s, ',');
  }

  lemma {:induction false} ConcatNonEmpty(pieces: seq<string>)
    ensures Concat(NonEmpty(pieces)) == Concat(pieces)
  {
    if pieces != [] {
      ConcatNonEmpty(pieces[1..]);
    }
  }

  lemma {:induction false} ConcatSplit(s: string, c: char)
    ensures Concat(Split(s, c)) == RemoveChar(s, c)
    decreases |s|
  {
    if c !in s {
      ConcatSplitAbsent(s, c);
    } else {
      var i := IndexOf(s, c);
      var tail := s[i + 1..];
      calc {
        Concat(Split(s, c));
      == { ConcatSplitStep(s, c); }
        s[..i] + Concat(Split(tail, c));
      == { ConcatSplit(tail, c); }
        s[..i] + RemoveChar(tail, c);
      == { RemoveCharStep(s, c); }
        RemoveChar(s, c);
      }
    }
  }

  lemma ConcatSplitAbsent(s: string, c: char)
    requires c !in s
    ensures Concat(Split(s, c)) == RemoveChar(s, c)
  {
    RemoveCharAbsent(s, c);
    assert Split(s, c) == [s];
    assert Concat([s]) == s + Concat([]);
  }

  lemma ConcatSplitStep(s: string, c: char)
    requires c in s
    ensures var i := IndexOf(s, c); Concat(Split(s, c)) == s[..i] + Concat(Split(s[i + 1..], c))
  {
    var i := IndexOf(s, c);
    SplitAt(s, c);
    ConcatCons(s[..i], Split(s[i + 1..], c));
  }

  /** Removing `c` up to its first occurrence keeps the text before it. */
  lemma RemoveCharStep(s: string, c: char)
    requires c in s
    ensures var i := IndexOf(s, c); RemoveChar(s, c) == s[..i] + RemoveChar(s[i + 1..], c)
  {
    var i := IndexOf(s, c);
    var head, tail := s[..i], s[i + 1..];
    assert c !in head by {
      forall k | 0 <= k < |head|
        ensures head[k] != c
      {
        assert head[k] == s[k];
      }
    }
    RemoveCharAbsent(head, c);
    RemoveCharSkip(c, tail);
    RemoveCharAppend(head, [c] + tail, c);
    CutAt(s, i);
  }

  lemma RemoveCharSkip(c: char, tail: string)
    ensures RemoveChar([c] + tail, c) == RemoveChar(tail, c)
  {
    assert ([c] + tail)[1..] == tail;
  }

  lemma {:induction false} RemoveCharAbsent(s: string, c: char)
    requires c !in s
    ensures RemoveChar(s, c) == s
  {
    if s != [] {
      RemoveCharAbsent(s[1..], c);
    }
  }

  lemma {:induction false} RemoveCharAppend(a: string, b: string, c: char)
    ensures RemoveChar(a + b, c) == RemoveChar(a, c) + RemoveChar(b, c)
  {
    if a != [] {
      assert (a + b)[1..] == a[1..] + b;
      RemoveCharAppend(a[1..], b, c);
    } else {
      assert a + b == b;
    }
  }

  /** Text that `parse` does not normalise: a boolean spelled in lower case,
      and a comma list without empty pieces. */
  predicate CanonicalText(s: string) {
    && (IsBooleanText(s) ==> ToLower(s) == s)
    && (!StartsWithBrace(s) && ',' in s ==> forall k :: 0 <= k < |Split(s, ',')| ==> Split(s, ',')[k] != "")
  }

  /** Printing what was parsed gives back the text, unless `parse` dropped
      empty comma pieces or lower-cased a boolean. */
  lemma ParsePrintRoundTrip(s: string)
    requires CanonicalText(s)
    ensures ToString(Parse(s)) == s
  {
    if Parse(s).Array? {
      JoinSplit(s, ',');
    } else if Parse(s).Boolean? {
      assert ToLower(s) == s;
    }
  }

  /** Values that `parse` can produce from their own printed form. */
  predicate CanonicalValue(v: NodeType) {
    match v
    case Boolean(_) => true
    case Numeric(t) => !IsBooleanText(t) && !StartsWithBrace(t) && ',' !in t && IsNumeric(t)
    case Str(t) => !IsBooleanText(t) && !StartsWithBrace(t) && ',' !in t && !IsNumeric(t)
    case Object(t) => StartsWithBrace(t)
    case Array(items) =>
      && |items| >= 2
      && (forall k :: 0 <= k < |items| ==> items[k] != "" && ',' !in items[k])
      && !StartsWithBrace(items[0])
    case NoValue => false
  }

  /** Parsing a printed value gives the value back. */
  lemma PrintParseRoundTrip(v: NodeType)
    requires CanonicalValue(v)
    ensures Parse(ToString(v)) == v
  {
    match v
    case Boolean(b) =>
      assert ToLower("true") == "true";
      assert ToLower("false") == "false";
    case Object(t) =>
      BraceIsNotBoolean(t);
    case Array(items) =>
      var s := Join(items, ",");
      JoinCons(items[0], items[1..], ",");
      assert [items[0]] + items[1..] == items;
      assert s == items[0] + "," + Join(items[1..], ",");
      assert s[|items[0]|] == ',';
      CommaIsNotBoolean(s);
      assert s[0] == items[0][0];
      SplitJoin(items, ',');
    case _ =>
  }

  lemma CommaIsNotBoolean(s: string)
    requires ',' in s
    ensures !IsBooleanText(s)
  {
    var i :| 0 <= i < |s| && s[i] == ',';
    assert ToLower(s)[i] == ',';
  }

  lemma BraceIsNotBoolean(s: string)
    requires StartsWithBrace(s)
    ensures !IsBooleanText(s)
  {
    assert ToLower(s)[0] == '{';
  }

  /** Unsigned digit strings are numbers (`parse::<usize>` accepts them). */
  lemma DigitsAreNumeric(s: string)
    requires |s| > 0 && AllDigits(s)
    ensures IsNumeric(s)
  {
    assert DropSign(s) == s;
    assert ToLower(s) == s;
    assert IndexOf(s, 'e') == |s|;
    assert s[..|s|] == s;
    assert IndexOf(s, '.') == |s|;
  }

  /** `Digit+ '.' Digit*` is a floating-point literal. */
  lemma DecimalFractionIsNumeric(whole: string, fraction: string)
    requires |whole| > 0 && AllDigits(whole) && AllDigits(fraction)
    ensures IsNumeric(whole + "." + fraction)
  {
    var s := whole + "." + fraction;
    FractionParts(whole, fraction);
    DigitsAndDotsHaveNoE(s);
    assert DropSign(s) == s;
    assert s[..|s|] == s;
  }

  lemma FractionParts(whole: string, fraction: string)
    requires |whole| > 0 && AllDigits(whole) && AllDigits(fraction)
    ensures var s := whole + "." + fraction;
      && s[0] == whole[0] && IndexOf(s, '.') == |whole|
      && s[..|whole|] == whole && s[|whole| + 1..] == fraction
      && forall k :: 0 <= k < |s| ==> IsDigit(s[k]) || s[k] == '.'
  {
    var s := whole + "." + fraction;
    assert s[|whole|] == '.';
    assert s[..|whole|] == whole;
    assert s[|whole| + 1..] == fraction;
    forall k | 0 <= k < |s|
      ensures IsDigit(s[k]) || s[k] == '.'
    {
      if k < |whole| {
        assert s[k] == whole[k];
      } else if k > |whole| {
        assert s[k] == fraction[k - |whole| - 1];
      }
    }
  }

  lemma DigitsAndDotsHaveNoE(s: string)
    requires forall k :: 0 <= k < |s| ==> IsDigit(s[k]) || s[k] == '.'
    ensures IndexOf(ToLower(s), 'e') == |s|
  {
    var lower := ToLower(s);
    assert forall k :: 0 <= k < |lower| ==> lower[k] == s[k];
    assert 'e' !in lower;
  }

  /** Text that starts with a letter other than those of "inf" and "nan" is
      not a number. */
  lemma WordIsNotNumeric(s: string)
    requires |s| > 0 && 'a' <= s[0] <= 'z' && s[0] != 'i' && s[0] != 'n' && s[0] != 'e'
    ensures !IsNumeric(s)
  {
    assert DropSign(s) == s;
    var lower := ToLower(s);
    assert lower[0] == s[0];
    var e := IndexOf(lower, 'e');
    assert e > 0;
    assert s[..e][0] == s[0];
    NotMantissa(s[..e]);
  }

  /** A mantissa starts with a digit or '.'. */
  lemma NotMantissa(m: string)
    requires |m| > 0 && !IsDigit(m[0]) && m[0] != '.'
    ensures !IsMantissa(m)
  {
    var d := IndexOf(m, '.');
    assert d > 0;
    if d < |m| {
      assert m[..d][0] == m[0];
    }
  }

  lemma EmptyIsNotNumeric()
    ensures !IsNumeric("")
  {
    assert DropSign("") == "";
    assert ToLower("") == "";
    assert IndexOf("", 'e') == 0;
  }

  lemma WordExample(s: string)
    requires |s| > 0 && 'a' <= s[0] <= 'z' && s[0] != 'i' && s[0] != 'n' && s[0] != 'e'
    requires ',' !in s && !IsBooleanText(s)
    ensures Parse(s) == Str(s)
  {
    WordIsNotNumeric(s);
  }

  /** Only four- and five-letter texts can read as booleans. */
  lemma LengthIsNotBoolean(s: string)
    requires |s| != 4 && |s| != 5
    ensures !IsBooleanText(s)
  {
  }

  /** An array of one item prints as that item alone, which reads back as
      a string: such arrays (which parse gives for ",test2,") are outside
      the print-parse round trip. */
  lemma SingletonArrayNoRoundTrip()
    ensures Parse(ToString(Array(["test2"]))) == Str("test2")
  {
    assert ToString(Array(["test2"])) == "test2";
    assert ToLower("test2")[1] == 'e';
    WordExample("test2");
  }

  /** A comma list with one non-empty piece parses as a one-item array. */
  lemma SingletonArrayParse()
    ensures Parse(",test2,") == Array(["test2"])
  {
    CommaIsNotBoolean(",test2,");
    SplitPrefixComma(",test2,");
    DropEmptyPieces();
    assert ",test2,"[0] == ',';
  }

  lemma SplitPrefixComma(s: string)
    requires s == ",test2,"
    ensures Split(s, ',') == ["", "test2", ""]
  {
    var t := s[1..];
    assert IndexOf(s, ',') == 0 && s[..0] == "";
    assert IndexOf(t, ',') == 5;
    assert t[..5] == "test2" && t[6..] == [];
    assert Split(t[6..], ',') == [""];
    assert Split(t, ',') == ["test2", ""];
    assert Split(s, ',') == [s[..0]] + Split(t, ',');
  }

  lemma DropEmptyPieces()
    ensures NonEmpty(["", "test2", ""]) == ["test2"]
  {
    var q: seq<string> := [""];
    assert q[1..] == [] && NonEmpty(q) == [];
    assert ["", "test2", ""][1..] == ["test2", ""] && ["", "test2", ""][1..][1..] == q;
    assert NonEmpty(["", "test2", ""][1..]) == ["test2"] + NonEmpty(q);
  }

  /** A lone comma parses as the empty array, which prints as "" and reads
      back as the empty string. */
  lemma EmptyArrayNoRoundTrip()
    ensures Parse(",") == Array([])
    ensures Parse(ToString(Array([]))) == Str("")
  {
    CommaIsNotBoolean(",");
    assert IndexOf(",", ',') == 0 && ","[..0] == "" && ","[1..] == "";
    assert Split(",", ',') == ["", ""];
    var p: seq<string> := ["", ""];
    assert p[1..] == [""] && [""][1..] == [];
    assert NonEmpty(p) == [];
    assert ToString(Array([])) == "";
    EmptyExample();
  }

  /** The text of a boolean reads back as that boolean. */
  lemma BoolTextParses(b: bool)
    ensures Parse(BoolText(b)) == Boolean(b)
  {
    assert ToLower(BoolText(b)) == BoolText(b);
  }

  lemma EmptyExample()
    ensures Parse("") == Str("")
  {
    EmptyIsNotNumeric();
    assert !IsBooleanText("");
  }

  lemma MixedCaseExamples()
    ensures Parse("faLse") == Boolean(false)
    ensures Parse("tRue") == Boolean(true)
  {
    assert ToLower("faLse") == "false";
    assert ToLower("tRue") == "true";
  }

  lemma NumberExample(s: string)
    requires IsNumeric(s) && ',' !in s && |s| > 0 && IsDigit(s[0])
    ensures Parse(s) == Numeric(s)
  {
    assert ToLower(s)[0] == s[0];
    assert !IsBooleanText(s);
  }

  lemma FractionExample(whole: string, fraction: string)
    requires |whole| > 0 && AllDigits(whole) && AllDigits(fraction)
    ensures Parse(whole + "." + fraction) == Numeric(whole + "." + fraction)
  {
    DecimalFractionIsNumeric(whole, fraction);
    var s := whole + "." + fraction;
    assert s[0] == whole[0];
    assert forall i :: 0 <= i < |s| ==> s[i] != ',' by {
      forall i | 0 <= i < |s| ensures s[i] != ',' {
        if i < |whole| { assert s[i] == whole[i]; }
        else if i > |whole| { assert s[i] == fraction[i - |whole| - 1]; }
      }
    }
    NumberExample(s);
  }

  /** Examples from the unit tests: words stay strings. */
  lemma StringExample()
    ensures Parse("string") == Str("string")
  {
    LengthIsNotBoolean("string");
    WordExample("string");
  }

  lemma SemicolonExample(s: string)
    requires s == "test1;test2"
    ensures Parse(s) == Str(s)
  {
    LengthIsNotBoolean(s);
    WordExample(s);
  }

  lemma OneExample()
    ensures Parse("1") == Numeric("1")
  {
    DigitsAreNumeric("1");
    NumberExample("1");
  }

  lemma TwentyExample()
    ensures Parse("20") == Numeric("20")
  {
    DigitsAreNumeric("20");
    NumberExample("20");
  }

  lemma OneAndAHalfExample()
    ensures Parse("1.5") == Numeric("1.5")
  {
    OneAndAHalfText();
    FractionExample("1", "5");
  }

  lemma OneAndAHalfText()
    ensures "1" + "." + "5" == "1.5"
  {
  }

  lemma TwentyPointFourExample()
    ensures Parse("20.4") == Numeric("20.4")
  {
    TwentyPointFourText();
    FractionExample("20", "4");
  }

  lemma TwentyPointFourText()
    ensures "20" + "." + "4" == "20.4"
  {
  }

  lemma ObjectExample()
    ensures Parse("{\"key\": \"value\"}") == Object("{\"key\": \"value\"}")
  {
    BraceIsNotBoolean("{\"key\": \"value\"}");
  }

  /** Examples from the unit tests: numbers and objects. */
  lemma ParseNumericExamples()
    ensures Parse("1") == Numeric("1")
    ensures Parse("1.5") == Numeric("1.5")
    ensures Parse("20") == Numeric("20")
    ensures Parse("20.4") == Numeric("20.4")
    ensures Parse("{\"key\": \"value\"}") == Object("{\"key\": \"value\"}")
  {
    OneExample();
    TwentyExample();
    OneAndAHalfExample();
    TwentyPointFourExample();
    ObjectExample();
  }

  lemma TwoElementsPrint()
    ensures ToString(Array(["test", "test2"])) == "test,test2"
  {
    assert ["test", "test2"][1..] == ["test2"];
  }

  lemma TrailingCommaExample()
    ensures Parse("test,test2,") == Array(["test", "test2"])
  {
    TrailingCommaText();
    ParseThreePieces("test", "test2", "");
    assert NonEmpty(["test", "test2", ""]) == ["test", "test2"];
  }

  lemma TrailingCommaText()
    ensures "test" + "," + "test2" + "," + "" == "test,test2,"
  {
  }

  lemma SurroundingCommasExample()
    ensures Parse(",test2,") == Array(["test2"])
  {
    SurroundingCommasText();
    ParseThreePieces("", "test2", "");
    assert NonEmpty(["", "test2", ""]) == ["test2"];
  }

  lemma SurroundingCommasText()
    ensures "" + "," + "test2" + "," + "" == ",test2,"
  {
  }

  lemma ThreeElementsExample()
    ensures Parse("test,test2,test4") == Array(["test", "test2", "test4"])
  {
    ThreeElementsText();
    ParseThreePieces("test", "test2", "test4");
    assert NonEmpty(["test", "test2", "test4"]) == ["test", "test2", "test4"];
  }

  lemma ThreeElementsText()
    ensures "test" + "," + "test2" + "," + "test4" == "test,test2,test4"
  {
  }

  lemma ParseThreePieces(a: string, b: string, c: string)
    requires ',' !in a && ',' !in b && ',' !in c
    requires a == "" || a[0] != '{'
    ensures Parse(a + "," + b + "," + c) == Array(NonEmpty([a, b, c]))
  {
    ArrayExample([a, b, c], a + "," + b + "," + c);
  }

  /** Examples from the unit tests: comma lists. */
  lemma ParseArrayExamples()
    ensures Parse("test,test2,test4") == Array(["test", "test2", "test4"])
    ensures Parse("test,test2,") == Array(["test", "test2"])
    ensures Parse(",test2,") == Array(["test2"])
    ensures ToString(Array(["test", "test2"])) == "test,test2"
  {
    ThreeElementsExample();
    TrailingCommaExample();
    SurroundingCommasExample();
    TwoElementsPrint();
  }

  lemma JoinThree(pieces: seq<string>, s: string)
    requires |pieces| == 3
    requires s == pieces[0] + "," + pieces[1] + "," + pieces[2]
    ensures Join(pieces, ",") == s
  {
    assert pieces[1..][1..] == [pieces[2]];
    assert Join(pieces[1..][1..], ",") == pieces[2];
    assert Join(pieces[1..], ",") == pieces[1] + "," + pieces[2];
  }

  /** Every comma text is the join of its comma pieces; parsing it gives
      those pieces, in order, with the empty ones dropped. */
  lemma ParseJoin(pieces: seq<string>)
    requires |pieces| >= 2 && forall k :: 0 <= k < |pieces| ==> ',' !in pieces[k]
    requires pieces[0] == "" || pieces[0][0] != '{'
    ensures Parse(Join(pieces, ",")) == Array(NonEmpty(pieces))
  {
    var s := Join(pieces, ",");
    JoinCons(pieces[0], pieces[1..], ",");
    assert [pieces[0]] + pieces[1..] == pieces;
    assert s == pieces[0] + "," + Join(pieces[1..], ",");
    SplitJoin(pieces, ',');
    assert s[|pieces[0]|] == ',';
    CommaIsNotBoolean(s);
    assert !StartsWithBrace(s) by {
      if pieces[0] == "" {
        assert s[0] == ',';
      } else {
        assert s[0] == pieces[0][0];
      }
    }
  }

  lemma ArrayExample(pieces: seq<string>, s: string)
    requires |pieces| == 3 && forall k :: 0 <= k < 3 ==> ',' !in pieces[k]
    requires s == pieces[0] + "," + pieces[1] + "," + pieces[2]
    requires pieces[0] == "" || pieces[0][0] != '{'
    ensures Parse(s) == Array(NonEmpty(pieces))
  {
    JoinThree(pieces, s);
    SplitJoin(pieces, ',');
    assert Split(s, ',') == pieces;
    assert s[|pieces[0]|] == ',';
    CommaIsNotBoolean(s);
    assert !StartsWithBrace(s) by {
      if pieces[0] == "" {
        assert s[0] == ',';
      } else {
        assert s[0] == pieces[0][0];
      }
    }
  }
}
