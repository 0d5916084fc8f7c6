/** The JSON reader (src/json_file_reader.rs): a parsed JSON document is
    walked into trees.  Every key of an object becomes a node one level
    below its object; `null` values are dropped; an array becomes one node
    holding the text of its elements; every other value is classified by
    `NodeType::parse`.

    The JSON value is the abstract datatype `Json`; parsing the text
    (`serde_json::from_str`) is not part of this model.  Object entries are
    kept in the order the map iterates them.
 */
module JsonReader {
  import opened Outcomes
  import opened NodeTypes
  import opened Tree
  import opened Nodes

  datatype Json =
    | JNull
    | JBool(b: bool)
    | JNumber(text: string)    // the number as `serde_json` prints it
    | JString(s: string)
    | JArray(items: seq<Json>)
    | JObject(entries: seq<(string, Json)>)

  function HexDigit(d: nat): char
    requires d < 16
  {
    "0123456789abcdef"[d]
  }

  /** One character inside a JSON string, escaped as `serde_json` writes it. */
  function EscapeChar(c: char): string {
    if c == '"' then "\\\""
    else if c == '\\' then "\\\\"
    else if c == '\n' then "\\n"
    else if c == '\r' then "\\r"
    else if c == '\t' then "\\t"
    else if c == '\U{0008}' then "\\b"
    else if c == '\U{000C}' then "\\f"
    else if c < ' ' then "\\u00" + [HexDigit(c as nat / 16), HexDigit(c as nat % 16)]
    else [c]
  }

  function Escape(s: string): string {
    if s == [] then "" else EscapeChar(s[0]) + Escape(s[1..])
  }

  /** `Value::to_string`: the compact JSON text of a value. */
  function Serialize(v: Json): string
    decreases v, 1
  {
    match v
    case JNull => "null"
    case JBool(b) => BoolText(b)
    case JNumber(t) => t
    case JString(s) => "\"" + Escape(s) + "\""
    case JArray(items) => "[" + SerializeItems(items) + "]"
    case JObject(entries) => "{" + SerializeEntries(entries) + "}"
  }

  function SerializeItems(items: seq<Json>): string
    decreases items, 0
  {
    if items == [] then ""
    else if |items| == 1 then Serialize(items[0])
    else Serialize(items[0]) + "," + SerializeItems(items[1..])
  }

  function SerializeEntries(entries: seq<(string, Json)>): string
    decreases entries, 0
  {
    if entries == [] then ""
    else
      assert entries[0].1 < entries[0];
      var entry := "\"" + Escape(entries[0].0) + "\":" + Serialize(entries[0].1);
      if |entries| == 1 then entry else entry + "," + SerializeEntries(entries[1..])
  }

  /** The text an array element contributes, as the code builds it
      (`value.to_string()`): a string element keeps its quotes. */
  function ElementTextAsWritten(v: Json): string {
    Serialize(v)
  }

  /** The text an array element is evidently meant to contribute: a string
      element is its contents, like the elements of a YAML sequence. */
  function ElementText(v: Json): string {
    if v.JString? then v.s else Serialize(v)
  }

  /** One text per element, in order: a string's contents, or the serde
      text of any other element. */
  function ElementTexts(items: seq<Json>): (r: seq<string>)
    ensures |r| == |items|
    ensures forall i :: 0 <= i < |items| && items[i].JString? ==> r[i] == items[i].s
    ensures forall i :: 0 <= i < |items| && !items[i].JString? ==> r[i] == ElementTextAsWritten(items[i])
  {
    seq(|items|, i requires 0 <= i < |items| => ElementText(items[i]))
  }

  /** `json_to_node`: the node for `key` at `level`, or nothing for `null`. */
  function JsonToNode(key: string, v: Json, level: nat): (r: Option<Node>)
    ensures r.None? <==> v.JNull?
    ensures r.Some? ==> r.value.name == key && r.value.level == level && LevelsOK(r.value)
    ensures r.Some? && !v.JObject? ==> r.value.children == []
    decreases v, 1
  {
    match v
    case JNull => None
    case JString(s) => Some(Node(key, level, Parse(s), []))
    case JBool(b) => Some(Node(key, level, Parse(BoolText(b)), []))
    case JNumber(t) => Some(Node(key, level, Parse(t), []))
    case JArray(items) => Some(Node(key, level, Array(ElementTexts(items)), []))
    case JObject(entries) => Some(Node(key, level, NoValue, ChildNodes(entries, level + 1)))
  }

  /** The loop over an object's entries: one child per non-null entry. */
  function ChildNodes(entries: seq<(string, Json)>, level: nat): (r: seq<Node>)
    ensures forall i :: 0 <= i < |r| ==> r[i].level == level && LevelsOK(r[i])
    decreases entries, 0
  {
    if entries == [] then []
    else
      assert entries[0].1 < entries[0];
      var head := match JsonToNode(entries[0].0, entries[0].1, level)
        case None => []
        case Some(n) => [n];
      head + ChildNodes(entries[1..], level)
  }

  /** `convert_json_values_to_nodes`: the roots of an object's keys, or of
      an array's elements under the name "", merged one after the other
      into an empty forest.  A `null` among them panics on `unwrap`; any
      other document gives no roots. */
  function Convert(doc: Json): Result<seq<Node>, Panic> {
    match doc
    case JObject(entries) => MergeEntries([], entries)
    case JArray(items) => MergeEntries([], seq(|items|, i requires 0 <= i < |items| => ("", items[i])))
    case _ => Ok([])
  }

  function MergeEntries(f: seq<Node>, entries: seq<(string, Json)>): Result<seq<Node>, Panic>
    decreases |entries|
  {
    if entries == [] then Ok(f)
    else
      var n :- Unwrap(JsonToNode(entries[0].0, entries[0].1, 0));
      var g :- Merge(f, n);
      MergeEntries(g, entries[1..])
  }

  // ----- What a document holds, independently of the tree -----

  /** The node value a non-object JSON value stands for. */
  function ValueOf(v: Json): NodeType {
    match v
    case JString(s) => Parse(s)
    case JBool(b) => Parse(BoolText(b))
    case JNumber(t) => Parse(t)
    case JArray(items) => Array(ElementTexts(items))
    case _ => NoValue
  }

  /** Position of the first non-null entry called `name`, or `|entries|`. */
  function EntryIndex(entries: seq<(string, Json)>, name: string): (i: nat)
    ensures i <= |entries|
    ensures forall j :: 0 <= j < i ==> entries[j].0 != name || entries[j].1.JNull?
    ensures i < |entries| ==> entries[i].0 == name && !entries[i].1.JNull?
  {
    if entries == [] then 0
    else if entries[0].0 == name && !entries[0].1.JNull? then 0
    else 1 + EntryIndex(entries[1..], name)
  }

  /** The value at a path of keys through nested objects, read off the
      document: the first non-null entry of each name is followed. */
  function JsonAt(entries: seq<(string, Json)>, path: seq<string>): Option<NodeType>
    decreases |path|
  {
    if path == [] then None
    else
      var i := EntryIndex(entries, path[0]);
      if i == |entries| then None
      else if |path| == 1 then Some(ValueOf(entries[i].1))
      else if entries[i].1.JObject? then JsonAt(entries[i].1.entries, path[1..])
      else None
  }

  /** Entries whose keys are pairwise distinct, as in a JSON object map. */
  predicate DistinctKeys(entries: seq<(string, Json)>) {
    forall i, j :: 0 <= i < j < |entries| ==> entries[i].0 != entries[j].0
  }

  predicate HasNull(entries: seq<(string, Json)>) {
    exists i :: 0 <= i < |entries| && entries[i].1.JNull?
  }

  /** The non-null entries, in order. */
  function NonNull(entries: seq<(string, Json)>): (r: seq<(string, Json)>)
    ensures |r| <= |entries|
  {
    if entries == [] then []
    else if entries[0].1.JNull? then NonNull(entries[1..])
    else [entries[0]] + NonNull(entries[1..])
  }

  // ----- Lemmas -----

  /** A node's value is what the document says, and only objects have
      children, one per non-null entry, named by the entry's key. */
  lemma JsonToNodeValue(key: string, v: Json, level: nat)
    requires !v.JNull?
    ensures JsonToNode(key, v, level).value.value == ValueOf(v)
    ensures v.JObject? ==> JsonToNode(key, v, level).value.children == ChildNodes(v.entries, level + 1)
  {
  }

  /** The children of an object node are its non-null entries, in order,
      each named by its key. */
  lemma {:induction false} ChildNodesNames(entries: seq<(string, Json)>, level: nat)
    ensures |ChildNodes(entries, level)| == |NonNull(entries)|
    ensures forall i :: 0 <= i < |NonNull(entries)| ==> ChildNodes(entries, level)[i].name == NonNull(entries)[i].0
  {
    if entries != [] {
      ChildNodesNames(entries[1..], level);
    }
  }

  /** The first child of a name is the node of the first non-null entry of
      that name. */
  lemma {:induction false} ChildNodesIndex(entries: seq<(string, Json)>, level: nat, name: string)
    ensures var f, i := ChildNodes(entries, level), EntryIndex(entries, name);
      && (i == |entries| <==> NameIndex(f, name) == |f|)
      && (i < |entries| ==> f[NameIndex(f, name)] == JsonToNode(name, entries[i].1, level).value)
  {
    if entries != [] {
      ChildNodesIndex(entries[1..], level, name);
      var f := ChildNodes(entries, level);
      var rest := ChildNodes(entries[1..], level);
      if entries[0].1.JNull? {
        assert f == rest;
      } else {
        var n := JsonToNode(entries[0].0, entries[0].1, level).value;
        assert f == [n] + rest;
        if n.name != name {
          assert f[1..] == rest;
        }
      }
    }
  }

  /** Following a path of keys through the tree of an object gives what the
      document holds at that path. */
  lemma {:induction false} ChildNodesLookup(entries: seq<(string, Json)>, level: nat, path: seq<string>)
    ensures Lookup(ChildNodes(entries, level), path) == JsonAt(entries, path)
    decreases |path|
  {
    if path != [] {
      ChildNodesIndex(entries, level, path[0]);
      var i := EntryIndex(entries, path[0]);
      if i < |entries| {
        var v := entries[i].1;
        JsonToNodeValue(path[0], v, level);
        if |path| > 1 && v.JObject? {
          ChildNodesLookup(v.entries, level + 1, path[1..]);
        }
      }
    }
  }

  /** Merging roots whose names are all new only appends them. */
  lemma {:induction false} MergeEntriesFresh(f: seq<Node>, entries: seq<(string, Json)>)
    requires forall j :: 0 <= j < |f| ==> f[j].level == 0
    requires DistinctKeys(entries)
    requires forall i, j :: 0 <= i < |entries| && 0 <= j < |f| ==> f[j].name != entries[i].0
    ensures MergeEntries(f, entries) == if HasNull(entries) then Err(UnwrapNone) else Ok(f + ChildNodes(entries, 0))
    decreases |entries|
  {
    if entries == [] {
      assert f + [] == f;
    } else if entries[0].1.JNull? {
    } else {
      var n := JsonToNode(entries[0].0, entries[0].1, 0).value;
      MergeNewName(f, n);
      var rest := entries[1..];
      FreshRest(f, entries, n);
      MergeEntriesFresh(f + [n], rest);
      HasNullCons(entries);
      ChildNodesCons(entries, n);
      PushAssoc(f, n, ChildNodes(rest, 0));
    }
  }

  lemma FreshRest(f: seq<Node>, entries: seq<(string, Json)>, n: Node)
    requires entries != [] && DistinctKeys(entries) && n.name == entries[0].0
    requires forall i, j :: 0 <= i < |entries| && 0 <= j < |f| ==> f[j].name != entries[i].0
    ensures forall i, j :: 0 <= i < |entries[1..]| && 0 <= j < |f + [n]| ==> (f + [n])[j].name != entries[1..][i].0
  {
    var rest := entries[1..];
    forall i, j | 0 <= i < |rest| && 0 <= j < |f + [n]|
      ensures (f + [n])[j].name != rest[i].0
    {
      assert rest[i] == entries[i + 1];
    }
  }

  lemma HasNullCons(entries: seq<(string, Json)>)
    requires entries != []
    ensures HasNull(entries) <==> entries[0].1.JNull? || HasNull(entries[1..])
  {
    var rest := entries[1..];
    if HasNull(rest) {
      var k :| 0 <= k < |rest| && rest[k].1.JNull?;
      assert entries[k + 1] == rest[k];
    }
    if HasNull(entries) && !entries[0].1.JNull? {
      var k :| 0 <= k < |entries| && entries[k].1.JNull?;
      assert rest[k - 1] == entries[k];
    }
  }

  lemma ChildNodesCons(entries: seq<(string, Json)>, n: Node)
    requires entries != [] && JsonToNode(entries[0].0, entries[0].1, 0) == Some(n)
    ensures ChildNodes(entries, 0) == [n] + ChildNodes(entries[1..], 0)
  {
  }

  /** A top-level object: it panics exactly when one of its values is
      `null`; otherwise it gives one root per key, in order, and every path
      of keys finds in the forest what the document holds there. */
  lemma ConvertObject(entries: seq<(string, Json)>)
    requires DistinctKeys(entries)
    ensures Convert(JObject(entries)).Err? <==> HasNull(entries)
    ensures Convert(JObject(entries)).Ok? ==>
      && Roots(Convert(JObject(entries)).value)
      && |Convert(JObject(entries)).value| == |entries|
      && (forall i :: 0 <= i < |entries| ==> Convert(JObject(entries)).value[i].name == entries[i].0)
      && forall path :: Lookup(Convert(JObject(entries)).value, path) == JsonAt(entries, path)
  {
    MergeEntriesFresh([], entries);
    if !HasNull(entries) {
      var f := ChildNodes(entries, 0);
      EmptyPrefix(f);
      ObjectRoots(entries);
      forall path
        ensures Lookup(f, path) == JsonAt(entries, path)
      {
        ChildNodesLookup(entries, 0, path);
      }
    }
  }

  lemma ObjectRoots(entries: seq<(string, Json)>)
    requires DistinctKeys(entries) && !HasNull(entries)
    ensures Roots(ChildNodes(entries, 0)) && |ChildNodes(entries, 0)| == |entries|
    ensures forall i :: 0 <= i < |entries| ==> ChildNodes(entries, 0)[i].name == entries[i].0
  {
    ChildNodesNames(entries, 0);
    NonNullAll(entries);
  }

  lemma {:induction false} NonNullAll(entries: seq<(string, Json)>)
    requires !HasNull(entries)
    ensures NonNull(entries) == entries
  {
    if entries != [] {
      NonNullAll(entries[1..]);
      assert [entries[0]] + entries[1..] == entries;
    }
  }

  /** A document that is neither an object nor an array gives no roots. */
  lemma ConvertScalar(doc: Json)
    requires !doc.JObject? && !doc.JArray?
    ensures Convert(doc) == Ok([])
  {
  }

  /** A top-level array of one element gives one root named "". */
  lemma ConvertSingletonArray(item: Json)
    ensures Convert(JArray([item])) ==
      if item.JNull? then Err(UnwrapNone) else Ok([JsonToNode("", item, 0).value])
  {
    var entries := seq(1, i requires 0 <= i < 1 => ("", [item][i]));
    assert entries == [("", item)];
    assert entries[1..] == [];
    if !item.JNull? {
      var n := JsonToNode("", item, 0).value;
      assert Push([], n) == [n];
      assert MergeEntries([], entries) == MergeEntries([n], []);
    }
  }

  /** Two scalars at the top of an array: both roots are named "", so the
      second is offered to the first, which looks for the second's first
      child and panics. */
  lemma ConvertScalarPairPanics(a: string, b: string)
    ensures Convert(JArray([JNumber(a), JNumber(b)])) == Err(IndexOutOfBounds)
  {
    var items := [JNumber(a), JNumber(b)];
    var entries := seq(2, i requires 0 <= i < 2 => ("", items[i]));
    assert entries == [("", JNumber(a)), ("", JNumber(b))];
    var first := Node("", 0, Parse(a), []);
    var second := Node("", 0, Parse(b), []);
    assert MergeEntries([], entries) == MergeEntries([first], entries[1..]);
    assert entries[1..] == [("", JNumber(b))];
    assert Merge([first], second) == Err(IndexOutOfBounds);
  }

  /** An array element that is a string keeps its quotes in the text the
      code builds, but not in the evidently intended text. */
  lemma ElementTextKeepsQuotes(s: string)
    requires forall k :: 0 <= k < |s| ==> ' ' <= s[k] && s[k] != '"' && s[k] != '\\'
    ensures ElementTextAsWritten(JString(s)) == "\"" + s + "\""
    ensures ElementText(JString(s)) == s
  {
    EscapePlain(s);
  }

  lemma {:induction false} EscapePlain(s: string)
    requires forall k :: 0 <= k < |s| ==> ' ' <= s[k] && s[k] != '"' && s[k] != '\\'
    ensures Escape(s) == s
  {
    if s != [] {
      EscapePlain(s[1..]);
      assert [s[0]] + s[1..] == s;
    }
  }

  /** Every non-string element contributes the same text either way. */
  lemma ElementTextAgrees(v: Json)
    requires !v.JString?
    ensures ElementText(v) == ElementTextAsWritten(v)
  {
  }
}
