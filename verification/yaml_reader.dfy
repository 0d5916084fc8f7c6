/** The YAML reader (src/yaml_file_reader.rs): a parsed YAML document is
    walked into trees, like the JSON one, with three differences: mapping
    keys must be strings (`as_str().unwrap()`), a tagged value is dropped
    like `null`, and sequence elements are turned into text by
    `yaml_value_to_string`, which panics on anything but a scalar.

    The YAML value is the abstract datatype `Yaml`; parsing the text
    (`serde_yaml::from_str`) is not part of this model, and neither is the
    formatting of numbers: a number carries both texts the library prints
    for it.  Mapping entries are kept in document order.
 */
module YamlReader {
  import opened Outcomes
  import opened NodeTypes
  import opened Tree
  import opened Nodes

  datatype Yaml =
    | YNull
    | YBool(b: bool)
    | YNumber(text: string, floatText: string)  // `Number::to_string` and `as_f64().to_string()`
    | YString(s: string)
    | YSequence(items: seq<Yaml>)
    | YMapping(entries: seq<(Yaml, Yaml)>)
    | YTagged(tag: string, value: Yaml)

  /** The value under any number of tags; the accessors `as_str`,
      `is_number` and `is_bool` look through tags. */
  function Untag(v: Yaml): (r: Yaml)
    ensures !r.YTagged?
  {
    if v.YTagged? then Untag(v.value) else v
  }

  /** `Value::as_str`. */
  function AsStr(v: Yaml): Option<string> {
    var u := Untag(v);
    if u.YString? then Some(u.s) else None
  }

  /** A number, a boolean or a string, possibly tagged. */
  predicate IsScalar(v: Yaml) {
    var u := Untag(v);
    u.YNumber? || u.YBool? || u.YString?
  }

  /** `yaml_value_to_string`. */
  function ScalarText(v: Yaml): Result<string, Panic> {
    var u := Untag(v);
    if u.YNumber? then Ok(u.floatText)
    else if u.YBool? then Ok(BoolText(u.b))
    else Unwrap(AsStr(v))
  }

  /** The texts of a sequence's elements, in order. */
  function SequenceTexts(items: seq<Yaml>): Result<seq<string>, Panic> {
    if items == [] then Ok([])
    else
      var t :- ScalarText(items[0]);
      var rest :- SequenceTexts(items[1..]);
      Ok([t] + rest)
  }

  /** `yaml_to_node`: the node for `key` at `level`, nothing for a `null`
      or tagged value, or a panic from a non-string key or a non-scalar
      sequence element somewhere below. */
  function YamlToNode(key: string, v: Yaml, level: nat): (r: Result<Option<Node>, Panic>)
    ensures r.Ok? ==> (r.value.None? <==> v.YNull? || v.YTagged?)
    ensures r.Ok? && r.value.Some? ==>
      r.value.value.name == key && r.value.value.level == level && LevelsOK(r.value.value)
    decreases v, 1
  {
    match v
    case YBool(b) => Ok(Some(Node(key, level, Parse(BoolText(b)), [])))
    case YNumber(t, _) => Ok(Some(Node(key, level, Parse(t), [])))
    case YString(s) => Ok(Some(Node(key, level, Parse(s), [])))
    case YSequence(items) =>
      var texts :- SequenceTexts(items);
      Ok(Some(Node(key, level, Array(texts), [])))
    case YMapping(entries) =>
      var children :- ChildNodes(entries, level + 1);
      Ok(Some(Node(key, level, NoValue, children)))
    case YTagged(_, _) => Ok(None)
    case YNull => Ok(None)
  }

  /** The loop over a mapping's entries: one child per entry whose value is
      neither `null` nor tagged. */
  function ChildNodes(entries: seq<(Yaml, Yaml)>, level: nat): (r: Result<seq<Node>, Panic>)
    ensures r.Ok? ==> forall i :: 0 <= i < |r.value| ==> r.value[i].level == level && LevelsOK(r.value[i])
    decreases entries, 0
  {
    if entries == [] then Ok([])
    else
      assert entries[0].1 < entries[0];
      var key :- Unwrap(AsStr(entries[0].0));
      var child :- YamlToNode(key, entries[0].1, level);
      var rest :- ChildNodes(entries[1..], level);
      Ok((if child.Some? then [child.value] else []) + rest)
  }

  /** `convert_yaml_values_to_nodes`: the roots of a mapping's keys merged
      one after the other into an empty forest (a `null` or tagged value
      there panics on `unwrap`); for a sequence, one root named "" holding
      the elements' texts; any other document gives no roots. */
  function Convert(doc: Yaml): Result<seq<Node>, Panic> {
    match doc
    case YMapping(entries) => MergeEntries([], entries)
    case YSequence(items) =>
      var texts :- SequenceTexts(items);
      Merge([], NewRoot("").(value := Array(texts)))
    case _ => Ok([])
  }

  function MergeEntries(f: seq<Node>, entries: seq<(Yaml, Yaml)>): Result<seq<Node>, Panic>
    decreases |entries|
  {
    if entries == [] then Ok(f)
    else
      var key :- Unwrap(AsStr(entries[0].0));
      var o :- YamlToNode(key, entries[0].1, 0);
      var n :- Unwrap(o);
      var g :- Merge(f, n);
      MergeEntries(g, entries[1..])
  }

  // ----- What a document holds, independently of the tree -----

  /** Every mapping key met on the walk is a string and every sequence
      element met is a scalar. */
  predicate Walkable(v: Yaml)
    decreases v, 1
  {
    match v
    case YSequence(items) => forall i :: 0 <= i < |items| ==> IsScalar(items[i])
    case YMapping(entries) => WalkableEntries(entries)
    case _ => true
  }

  predicate WalkableEntries(entries: seq<(Yaml, Yaml)>)
    decreases entries, 0
  {
    entries != [] ==>
      assert entries[0].1 < entries[0];
      AsStr(entries[0].0).Some? && Walkable(entries[0].1) && WalkableEntries(entries[1..])
  }

  /** The text of a scalar. */
  function ScalarString(v: Yaml): string
    requires IsScalar(v)
  {
    var u := Untag(v);
    if u.YNumber? then u.floatText else if u.YBool? then BoolText(u.b) else u.s
  }

  /** The node value a value that is not a mapping stands for. */
  function ValueOf(v: Yaml): NodeType
    requires Walkable(v)
  {
    match v
    case YBool(b) => Parse(BoolText(b))
    case YNumber(t, _) => Parse(t)
    case YString(s) => Parse(s)
    case YSequence(items) => Array(seq(|items|, i requires 0 <= i < |items| && IsScalar(items[i]) => ScalarString(items[i])))
    case _ => NoValue
  }

  /** A value that yields a node. */
  predicate Present(v: Yaml) {
    !v.YNull? && !v.YTagged?
  }

  /** The entries whose values are present, in order. */
  function PresentEntries(entries: seq<(Yaml, Yaml)>): (r: seq<(Yaml, Yaml)>)
    ensures |r| <= |entries|
  {
    if entries == [] then []
    else if Present(entries[0].1) then [entries[0]] + PresentEntries(entries[1..])
    else PresentEntries(entries[1..])
  }

  /** Position of the first entry with key `name` and a present value, or
      `|entries|`. */
  function EntryIndex(entries: seq<(Yaml, Yaml)>, name: string): (i: nat)
    ensures i <= |entries|
    ensures forall j :: 0 <= j < i ==> AsStr(entries[j].0) != Some(name) || !Present(entries[j].1)
    ensures i < |entries| ==> AsStr(entries[i].0) == Some(name) && Present(entries[i].1)
  {
    if entries == [] then 0
    else if AsStr(entries[0].0) == Some(name) && Present(entries[0].1) then 0
    else 1 + EntryIndex(entries[1..], name)
  }

  lemma {:induction false} WalkableEntry(entries: seq<(Yaml, Yaml)>, i: nat)
    requires WalkableEntries(entries) && i < |entries|
    ensures AsStr(entries[i].0).Some? && Walkable(entries[i].1)
  {
    if i > 0 {
      WalkableEntry(entries[1..], i - 1);
    }
  }

  /** The value at a path of keys through nested mappings, read off the
      document. */
  function YamlAt(entries: seq<(Yaml, Yaml)>, path: seq<string>): Option<NodeType>
    requires WalkableEntries(entries)
    decreases |path|
  {
    if path == [] then None
    else
      var i := EntryIndex(entries, path[0]);
      if i == |entries| then None
      else
        WalkableEntry(entries, i);
        var v := entries[i].1;
        if |path| == 1 then Some(ValueOf(v))
        else if v.YMapping? then YamlAt(v.entries, path[1..])
        else None
  }

  /** Entries whose string keys are pairwise distinct, as in a YAML map. */
  predicate DistinctKeys(entries: seq<(Yaml, Yaml)>) {
    forall i, j :: 0 <= i < j < |entries| && AsStr(entries[i].0).Some? ==> AsStr(entries[i].0) != AsStr(entries[j].0)
  }

  /** Every top-level entry yields a root: its key is a string, its value
      is present, and the walk below it does not panic. */
  predicate Loadable(entries: seq<(Yaml, Yaml)>) {
    WalkableEntries(entries) && forall i :: 0 <= i < |entries| ==> Present(entries[i].1)
  }

  // ----- Lemmas -----

  lemma {:induction false} SequenceTextsSpec(items: seq<Yaml>)
    ensures SequenceTexts(items).Ok? <==> forall i :: 0 <= i < |items| ==> IsScalar(items[i])
    ensures SequenceTexts(items).Ok? ==>
      && |SequenceTexts(items).value| == |items|
      && forall i :: 0 <= i < |items| ==> SequenceTexts(items).value[i] == ScalarString(items[i])
  {
    if items != [] {
      SequenceTextsSpec(items[1..]);
      if !IsScalar(items[0]) {
        assert SequenceTexts(items).Err?;
      }
      forall i | 0 <= i < |items| - 1 && !IsScalar(items[1..][i])
        ensures !IsScalar(items[i + 1])
      {
      }
    }
  }

  /** The walk below a value panics exactly when a key met is not a string
      or a sequence element met is not a scalar; when it does not, the
      node's value is what the document says. */
  lemma {:induction false} YamlToNodeSpec(key: string, v: Yaml, level: nat)
    ensures YamlToNode(key, v, level).Ok? <==> Walkable(v)
    ensures YamlToNode(key, v, level).Ok? && Present(v) ==>
      YamlToNode(key, v, level).value.value.value == ValueOf(v)
    decreases v, 1
  {
    match v
    case YSequence(items) =>
      SequenceTextsSpec(items);
    case YMapping(entries) =>
      ChildNodesOk(entries, level + 1);
    case _ =>
  }

  lemma {:induction false} ChildNodesOk(entries: seq<(Yaml, Yaml)>, level: nat)
    ensures ChildNodes(entries, level).Ok? <==> WalkableEntries(entries)
    decreases entries, 0
  {
    if entries != [] {
      assert entries[0].1 < entries[0];
      if AsStr(entries[0].0).Some? {
        YamlToNodeSpec(AsStr(entries[0].0).value, entries[0].1, level);
      }
      ChildNodesOk(entries[1..], level);
    }
  }

  /** The children of a mapping node are its entries with present values,
      in order, each named by its key. */
  lemma {:induction false} ChildNodesNames(entries: seq<(Yaml, Yaml)>, level: nat)
    requires ChildNodes(entries, level).Ok?
    ensures |ChildNodes(entries, level).value| == |PresentEntries(entries)|
    ensures forall i :: 0 <= i < |PresentEntries(entries)| ==>
      AsStr(PresentEntries(entries)[i].0) == Some(ChildNodes(entries, level).value[i].name)
  {
    if entries != [] {
      ChildNodesCons(entries, level);
      ChildNodesNames(entries[1..], level);
    }
  }

  /** When every value is present, no entry is filtered out. */
  lemma {:induction false} PresentAll(entries: seq<(Yaml, Yaml)>)
    requires forall i :: 0 <= i < |entries| ==> Present(entries[i].1)
    ensures PresentEntries(entries) == entries
  {
    if entries != [] {
      assert forall i :: 0 <= i < |entries[1..]| ==> entries[1..][i] == entries[i + 1];
      PresentAll(entries[1..]);
      assert [entries[0]] + entries[1..] == entries;
    }
  }

  /** The first child of a name is the node of the first entry of that
      name whose value is present. */
  lemma {:induction false} ChildNodesIndex(entries: seq<(Yaml, Yaml)>, level: nat, name: string)
    requires ChildNodes(entries, level).Ok?
    ensures var f, i := ChildNodes(entries, level).value, EntryIndex(entries, name);
      && (i == |entries| <==> NameIndex(f, name) == |f|)
      && (i < |entries| ==> YamlToNode(name, entries[i].1, level) == Ok(Some(f[NameIndex(f, name)])))
  {
    if entries != [] {
      ChildNodesCons(entries, level);
      ChildNodesIndex(entries[1..], level, name);
      var rest := entries[1..];
      var key := AsStr(entries[0].0).value;
      var child := YamlToNode(key, entries[0].1, level).value;
      var f, g := ChildNodes(entries, level).value, ChildNodes(rest, level).value;
      if child.Some? {
        NameIndexCons(child.value, g, name);
      }
      if child.None? || key != name {
        var k := EntryIndex(rest, name);
        assert EntryIndex(entries, name) == 1 + k;
        if k < |rest| {
          assert entries[1 + k] == rest[k];
          if child.Some? {
            assert f[1 + NameIndex(g, name)] == g[NameIndex(g, name)];
          }
        }
      }
    }
  }

  /** The roots of a mapping's entries: the first entry's root, if any,
      then the roots of the others. */
  lemma ChildNodesCons(entries: seq<(Yaml, Yaml)>, level: nat)
    requires entries != [] && ChildNodes(entries, level).Ok?
    ensures AsStr(entries[0].0).Some?
    ensures YamlToNode(AsStr(entries[0].0).value, entries[0].1, level).Ok?
    ensures ChildNodes(entries[1..], level).Ok?
    ensures var child := YamlToNode(AsStr(entries[0].0).value, entries[0].1, level).value;
      && (child.None? ==> ChildNodes(entries, level).value == ChildNodes(entries[1..], level).value)
      && (child.Some? ==> ChildNodes(entries, level).value == [child.value] + ChildNodes(entries[1..], level).value)
  {
    assert [] + ChildNodes(entries[1..], level).value == ChildNodes(entries[1..], level).value;
  }

  /** Following a path of keys through the tree of a mapping gives what the
      document holds at that path. */
  lemma {:induction false} ChildNodesLookup(entries: seq<(Yaml, Yaml)>, level: nat, path: seq<string>)
    requires ChildNodes(entries, level).Ok?
    ensures WalkableEntries(entries)
    ensures Lookup(ChildNodes(entries, level).value, path) == YamlAt(entries, path)
    decreases |path|
  {
    ChildNodesOk(entries, level);
    if path != [] {
      ChildNodesIndex(entries, level, path[0]);
      var i := EntryIndex(entries, path[0]);
      if i < |entries| {
        var v := entries[i].1;
        WalkableEntry(entries, i);
        YamlToNodeSpec(path[0], v, level);
        if |path| > 1 && v.YMapping? {
          ChildNodesLookup(v.entries, level + 1, path[1..]);
        }
      }
    }
  }

  /** Merging roots whose names are all new only appends them. */
  lemma {:induction false} MergeEntriesFresh(f: seq<Node>, entries: seq<(Yaml, Yaml)>)
    requires forall j :: 0 <= j < |f| ==> f[j].level == 0
    requires DistinctKeys(entries)
    requires forall i, j :: 0 <= i < |entries| && 0 <= j < |f| ==> AsStr(entries[i].0) != Some(f[j].name)
    ensures MergeEntries(f, entries).Ok? <==> Loadable(entries)
    ensures Loadable(entries) ==>
      ChildNodes(entries, 0).Ok? && MergeEntries(f, entries) == Ok(f + ChildNodes(entries, 0).value)
    decreases |entries|
  {
    ChildNodesOk(entries, 0);
    if entries == [] {
      assert f + [] == f;
    } else if LoadsHead(entries) {
      var n := HeadNode(entries);
      FreshRest(f, entries, n);
      MergeEntriesStep(f, entries, n);
      MergeEntriesFresh(f + [n], entries[1..]);
      LoadableCons(entries);
      ChildNodesOk(entries[1..], 0);
      if Loadable(entries) {
        PushAssoc(f, n, ChildNodes(entries[1..], 0).value);
      }
    } else {
      MergeEntriesHeadFails(f, entries);
      LoadableCons(entries);
    }
  }

  /** The first entry yields a root. */
  predicate LoadsHead(entries: seq<(Yaml, Yaml)>) {
    entries != [] && AsStr(entries[0].0).Some? && Walkable(entries[0].1) && Present(entries[0].1)
  }

  function HeadNode(entries: seq<(Yaml, Yaml)>): (n: Node)
    requires LoadsHead(entries)
    ensures YamlToNode(AsStr(entries[0].0).value, entries[0].1, 0) == Ok(Some(n))
    ensures n.level == 0 && AsStr(entries[0].0) == Some(n.name)
  {
    YamlToNodeSpec(AsStr(entries[0].0).value, entries[0].1, 0);
    YamlToNode(AsStr(entries[0].0).value, entries[0].1, 0).value.value
  }

  lemma MergeEntriesHeadFails(f: seq<Node>, entries: seq<(Yaml, Yaml)>)
    requires entries != [] && !LoadsHead(entries)
    ensures MergeEntries(f, entries).Err?
  {
    if AsStr(entries[0].0).Some? {
      YamlToNodeSpec(AsStr(entries[0].0).value, entries[0].1, 0);
    }
  }

  /** A first entry that yields a fresh root: the merge goes on with the
      root pushed, and the roots of the entries start with it. */
  lemma MergeEntriesStep(f: seq<Node>, entries: seq<(Yaml, Yaml)>, n: Node)
    requires forall j :: 0 <= j < |f| ==> f[j].level == 0
    requires entries != [] && AsStr(entries[0].0).Some?
    requires YamlToNode(AsStr(entries[0].0).value, entries[0].1, 0) == Ok(Some(n))
    requires forall j :: 0 <= j < |f| ==> AsStr(entries[0].0) != Some(f[j].name)
    ensures forall j :: 0 <= j < |f + [n]| ==> (f + [n])[j].level == 0
    ensures MergeEntries(f, entries) == MergeEntries(f + [n], entries[1..])
    ensures ChildNodes(entries[1..], 0).Ok? ==> ChildNodes(entries, 0) == Ok([n] + ChildNodes(entries[1..], 0).value)
  {
    MergeNewName(f, n);
  }

  lemma LoadableCons(entries: seq<(Yaml, Yaml)>)
    requires entries != []
    ensures Loadable(entries) <==> LoadsHead(entries) && Loadable(entries[1..])
  {
    var rest := entries[1..];
    if AsStr(entries[0].0).Some? && Walkable(entries[0].1) && Present(entries[0].1) && Loadable(rest) {
      forall i | 0 <= i < |entries|
        ensures Present(entries[i].1)
      {
        if i > 0 {
          assert entries[i] == rest[i - 1];
        }
      }
    }
    if Loadable(entries) {
      forall i | 0 <= i < |rest|
        ensures Present(rest[i].1)
      {
        assert rest[i] == entries[i + 1];
      }
    }
  }

  /** The keys after the first are new to the forest grown by the first. */
  lemma FreshRest(f: seq<Node>, entries: seq<(Yaml, Yaml)>, n: Node)
    requires entries != [] && DistinctKeys(entries) && AsStr(entries[0].0) == Some(n.name)
    requires forall i, j :: 0 <= i < |entries| && 0 <= j < |f| ==> AsStr(entries[i].0) != Some(f[j].name)
    ensures forall i, j :: 0 <= i < |entries[1..]| && 0 <= j < |f + [n]| ==> AsStr(entries[1..][i].0) != Some((f + [n])[j].name)
  {
    var rest := entries[1..];
    forall i, j | 0 <= i < |rest| && 0 <= j < |f + [n]|
      ensures AsStr(rest[i].0) != Some((f + [n])[j].name)
    {
      assert rest[i] == entries[i + 1];
    }
  }

  /** A top-level mapping: it panics exactly when a key is not a string, a
      value is `null` or tagged, or the walk below a value panics;
      otherwise it gives one root per key, in order, and every path of keys
      finds in the forest what the document holds there. */
  lemma ConvertMapping(entries: seq<(Yaml, Yaml)>)
    requires DistinctKeys(entries)
    ensures Convert(YMapping(entries)).Err? <==> !Loadable(entries)
    ensures Convert(YMapping(entries)).Ok? ==>
      && Roots(Convert(YMapping(entries)).value)
      && |Convert(YMapping(entries)).value| == |entries|
      && (forall i :: 0 <= i < |entries| ==> AsStr(entries[i].0) == Some(Convert(YMapping(entries)).value[i].name))
      && forall path :: Lookup(Convert(YMapping(entries)).value, path) == YamlAt(entries, path)
  {
    MergeEntriesFresh([], entries);
    if Loadable(entries) {
      MappingRoots(entries);
      forall path
        ensures Lookup(ChildNodes(entries, 0).value, path) == YamlAt(entries, path)
      {
        ChildNodesLookup(entries, 0, path);
      }
    }
  }

  lemma MappingRoots(entries: seq<(Yaml, Yaml)>)
    requires DistinctKeys(entries) && Loadable(entries)
    ensures ChildNodes(entries, 0).Ok?
    ensures Convert(YMapping(entries)) == Ok(ChildNodes(entries, 0).value)
    ensures Roots(ChildNodes(entries, 0).value) && |ChildNodes(entries, 0).value| == |entries|
    ensures forall i :: 0 <= i < |entries| ==> AsStr(entries[i].0) == Some(ChildNodes(entries, 0).value[i].name)
  {
    MergeEntriesFresh([], entries);
    ChildNodesOk(entries, 0);
    EmptyPrefix(ChildNodes(entries, 0).value);
    ChildNodesCount(entries, 0);
    ChildNodesNames(entries, 0);
    PresentAll(entries);
  }

  /** Every entry with a present value gives one child. */
  lemma {:induction false} ChildNodesCount(entries: seq<(Yaml, Yaml)>, level: nat)
    requires ChildNodes(entries, level).Ok?
    requires forall i :: 0 <= i < |entries| ==> Present(entries[i].1)
    ensures |ChildNodes(entries, level).value| == |entries|
  {
    if entries != [] {
      assert forall i :: 0 <= i < |entries[1..]| ==> entries[1..][i] == entries[i + 1];
      ChildNodesCount(entries[1..], level);
      var key := AsStr(entries[0].0).value;
      assert YamlToNode(key, entries[0].1, level).value.Some?;
    }
  }

  /** A top-level sequence gives one root named "" holding the texts of
      the elements, or panics when an element is not a scalar. */
  lemma ConvertSequence(items: seq<Yaml>)
    ensures Convert(YSequence(items)).Err? <==> exists i :: 0 <= i < |items| && !IsScalar(items[i])
    ensures Convert(YSequence(items)).Ok? ==>
      Convert(YSequence(items)).value == [Node("", 0, Array(seq(|items|, i requires 0 <= i < |items| && IsScalar(items[i]) => ScalarString(items[i]))), [])]
  {
    SequenceTextsSpec(items);
    var r := SequenceTexts(items);
    if r.Ok? {
      var root := NewRoot("").(value := Array(r.value));
      assert Push([], root) == [root];
      assert r.value == seq(|items|, i requires 0 <= i < |items| && IsScalar(items[i]) => ScalarString(items[i]));
    }
  }

  /** A document that is neither a mapping nor a sequence gives no roots. */
  lemma ConvertScalar(doc: Yaml)
    requires !doc.YMapping? && !doc.YSequence?
    ensures Convert(doc) == Ok([])
  {
  }
}
