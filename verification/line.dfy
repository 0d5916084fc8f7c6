/** One stored property (src/line.rs): the key, the value and the number
    of the line it came from. */
module Lines {
  import opened Strings

  datatype Line = Line(key: string, value: string, lineNumber: nat)

  /** No whitespace at the end. */
  predicate TrimmedEnd(s: string) {
    s == [] || !IsWhitespace(s[|s| - 1])
  }

  /** No whitespace at the start. */
  predicate TrimmedStart(s: string) {
    s == [] || !IsWhitespace(s[0])
  }

  /** `Line::new`: the key loses its trailing whitespace, the value its
      leading whitespace; nothing else is dropped. */
  function NewLine(key: string, value: string, lineNumber: nat): (r: Line)
    ensures TrimmedEnd(r.key) && TrimmedStart(r.value)
    ensures |r.key| <= |key| && |r.value| <= |value|
    ensures key == r.key + key[|r.key|..] && forall i :: |r.key| <= i < |key| ==> IsWhitespace(key[i])
    ensures value == value[..|value| - |r.value|] + r.value
    ensures forall i :: 0 <= i < |value| - |r.value| ==> IsWhitespace(value[i])
    ensures r.lineNumber == lineNumber
  {
    var k := TrimEnd(key);
    var v := TrimStart(value);
    assert key == k + key[|k|..];
    assert value == value[..|value| - |v|] + v;
    Line(k, v, lineNumber)
  }

  /** `Line::remove_last_char`: drops the last character, if any. */
  function RemoveLastChar(s: string): (r: string)
    ensures s == [] ==> r == []
    ensures s != [] ==> s == r + [s[|s| - 1]]
  {
    if s == [] then [] else s[..|s| - 1]
  }

  /** `Line::add_multiline`: the continuation replaces the last character
      of the value (the backslash), without its leading whitespace. */
  function AddMultiline(l: Line, continuation: string): (r: Line)
    ensures r.key == l.key && r.lineNumber == l.lineNumber
    ensures |r.value| == |l.value| - (if l.value == [] then 0 else 1) + |TrimStart(continuation)|
    ensures l.value == [] ==> r.value == TrimStart(continuation)
    ensures l.value != [] ==> r.value == l.value[..|l.value| - 1] + TrimStart(continuation)
  {
    l.(value := RemoveLastChar(l.value) + TrimStart(continuation))
  }

  /** A value that had its leading whitespace removed keeps that property
      when a continuation is added. */
  lemma AddMultilineTrimmed(l: Line, continuation: string)
    requires TrimmedStart(l.value)
    ensures TrimmedStart(AddMultiline(l, continuation).value)
  {
    var head := RemoveLastChar(l.value);
    if head != [] {
      assert (head + TrimStart(continuation))[0] == l.value[0];
    }
  }

  /** Whatever the value's last character, the continuation without its
      leading whitespace takes its place. */
  lemma AddMultilineReplacesLastChar(l: Line, body: string, last: char, continuation: string)
    requires l.value == body + [last]
    ensures AddMultiline(l, continuation).value == body + TrimStart(continuation)
  {
    assert l.value[..|l.value| - 1] == body;
  }

  /** A value ending in a backslash: the continuation takes the backslash's
      place. */
  lemma AddMultilineReplacesBackslash(l: Line, body: string, continuation: string)
    requires l.value == body + "\\"
    ensures AddMultiline(l, continuation).value == body + TrimStart(continuation)
  {
    assert RemoveLastChar(l.value) == body;
  }
}
