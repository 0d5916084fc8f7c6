/** From the map of properties to the forest: the second half of
    `PropertyFileReader::parse` (src/property_file_reader.rs).  Every key is
    split at '.', turned into a chain by `Node::new` and merged into the
    forest.

    The map is a `HashMap`, whose iteration order is unspecified; the model
    takes that order as a parameter `order` listing every key once, and
    every statement below holds for whichever order the map produces.
 */
module PropertyForest {
  import opened Outcomes
  import opened Strings
  import opened NodeTypes
  import opened Tree
  import opened Nodes
  import opened Lines
  import opened PropertyReader

  /** The node names of a key. */
  function Pieces(key: string): (r: seq<string>)
    ensures |r| >= 1
  {
    Split(key, '.')
  }

  /** `order` lists every key of `keys` exactly once. */
  predicate Enumerates(order: seq<string>, keys: set<string>) {
    && (forall i :: 0 <= i < |order| ==> order[i] in keys)
    && (forall k :: k in keys ==> k in order)
    && (forall i, j :: 0 <= i < j < |order| ==> order[i] != order[j])
  }

  /** The loop over the map: merge the chain of every key, in `order`. */
  function BuildForest(content: map<string, Line>, order: seq<string>): (r: Result<seq<Node>, Panic>)
    requires forall i :: 0 <= i < |order| ==> order[i] in content
    decreases |order|
  {
    if order == [] then Ok([])
    else
      var key := order[|order| - 1];
      var f :- BuildForest(content, order[..|order| - 1]);
      // `Node::new` fails only on an empty list of names, and a split key
      // has at least one piece.
      Merge(f, NewNode(Pieces(key), content[key].value).value)
  }

  /** `PropertyFileReader::parse`: read the lines, then build the forest. */
  function ParseProperties(lines: seq<string>, d: Delimiter, order: seq<string>): Result<seq<Node>, Panic>
    requires Enumerates(order, ReadFile(lines, d).content.Keys)
  {
    BuildForest(ReadFile(lines, d).content, order)
  }

  predicate PrefixOf(p: seq<string>, q: seq<string>) {
    |p| <= |q| && q[..|p|] == p
  }

  /** What the chain of one key answers for `path`: the parsed value at the
      key's full path, no value at its proper prefixes, nothing elsewhere. */
  function ChainValue(parts: seq<string>, value: string, path: seq<string>): Option<NodeType> {
    if path == parts then Some(Parse(value))
    else if 0 < |path| < |parts| && path == parts[..|path|] then Some(NoValue)
    else None
  }

  /** The answer of the first key in `order` whose chain knows `path`. */
  function Expected(content: map<string, Line>, order: seq<string>, path: seq<string>): Option<NodeType>
    requires forall i :: 0 <= i < |order| ==> order[i] in content
    decreases |order|
  {
    if order == [] then None
    else
      var key := order[|order| - 1];
      Override(Expected(content, order[..|order| - 1], path), ChainValue(Pieces(key), content[key].value, path))
  }

  /** Key `i` comes after key `j` and its names are a prefix of key `j`'s:
      merging key `i` finds its whole path already present. */
  predicate Clash(order: seq<string>, i: int, j: int) {
    0 <= j < i < |order| && PrefixOf(Pieces(order[i]), Pieces(order[j]))
  }

  lemma ChainValueSome(parts: seq<string>, value: string, path: seq<string>)
    requires |parts| > 0
    ensures ChainValue(parts, value, path).Some? <==> |path| > 0 && PrefixOf(path, parts)
  {
    if path == parts {
      assert parts[..|path|] == parts;
    }
  }

  /** The chain built by `Node::new` answers exactly `ChainValue`. */
  lemma {:induction false} ChainLookup(parts: seq<string>, level: nat, value: string, path: seq<string>)
    requires |parts| > 0
    ensures Lookup([Chain(parts, level, value)], path) == ChainValue(parts, value, path)
    decreases |parts|
  {
    var c := Chain(parts, level, value);
    if path != [] && path[0] == parts[0] {
      if |parts| > 1 {
        var rest := Chain(parts[1..], level + 1, value);
        assert c.children == [rest];
        if |path| > 1 {
          ChainLookup(parts[1..], level + 1, value, path[1..]);
          assert path == [path[0]] + path[1..];
          assert parts == [parts[0]] + parts[1..];
          if |path| <= |parts| {
            assert parts[..|path|] == [parts[0]] + parts[1..][..|path| - 1];
          }
        } else {
          assert path != parts;
          assert parts[..1] == path;
        }
      } else if |path| > 1 {
        assert path != parts;
      } else {
        assert path == parts;
      }
    } else if path != [] {
      assert path != parts;
    }
  }

  /** Some key's chain answers `path` exactly when `Expected` does. */
  lemma {:induction false} ExpectedSome(content: map<string, Line>, order: seq<string>, path: seq<string>)
    requires forall i :: 0 <= i < |order| ==> order[i] in content
    ensures Expected(content, order, path).Some? <==>
      exists j :: 0 <= j < |order| && ChainValue(Pieces(order[j]), content[order[j]].value, path).Some?
    decreases |order|
  {
    if order != [] {
      var init := order[..|order| - 1];
      ExpectedSome(content, init, path);
      if Expected(content, init, path).Some? {
        var j :| 0 <= j < |init| && ChainValue(Pieces(init[j]), content[init[j]].value, path).Some?;
        assert order[j] == init[j];
      }
      forall j | 0 <= j < |init| && ChainValue(Pieces(order[j]), content[order[j]].value, path).Some?
        ensures Expected(content, init, path).Some?
      {
        assert order[j] == init[j];
      }
    }
  }

  /** The first key whose chain answers `path` decides it. */
  lemma {:induction false} ExpectedFirst(content: map<string, Line>, order: seq<string>, i: nat, path: seq<string>)
    requires forall k :: 0 <= k < |order| ==> order[k] in content
    requires i < |order|
    requires forall j :: 0 <= j < i ==> ChainValue(Pieces(order[j]), content[order[j]].value, path).None?
    requires ChainValue(Pieces(order[i]), content[order[i]].value, path).Some?
    ensures Expected(content, order, path) == ChainValue(Pieces(order[i]), content[order[i]].value, path)
    decreases |order|
  {
    var init := order[..|order| - 1];
    if i == |order| - 1 {
      forall j | 0 <= j < |init|
        ensures ChainValue(Pieces(init[j]), content[init[j]].value, path).None?
      {
        assert init[j] == order[j];
      }
      ExpectedSome(content, init, path);
    } else {
      forall j | 0 <= j < i
        ensures ChainValue(Pieces(init[j]), content[init[j]].value, path).None?
      {
        assert init[j] == order[j];
      }
      assert init[i] == order[i];
      ExpectedFirst(content, init, i, path);
    }
  }

  /** A clash among the earlier keys is a clash of the whole order, and a
      clash of the whole order is either among the earlier keys or has the
      last key coming second. */
  lemma ClashesOfInit(order: seq<string>)
    requires order != []
    ensures forall i, j :: Clash(order[..|order| - 1], i, j) ==> Clash(order, i, j)
    ensures forall i, j :: Clash(order, i, j) && i < |order| - 1 ==> Clash(order[..|order| - 1], i, j)
  {
    var init := order[..|order| - 1];
    forall i, j | Clash(init, i, j)
      ensures Clash(order, i, j)
    {
      assert init[i] == order[i] && init[j] == order[j];
    }
    forall i, j | Clash(order, i, j) && i < |order| - 1
      ensures Clash(init, i, j)
    {
      assert init[i] == order[i] && init[j] == order[j];
    }
  }

  /** The last key's path is already known to the earlier keys exactly when
      it clashes with one of them. */
  lemma ClashWithLast(content: map<string, Line>, order: seq<string>)
    requires forall i :: 0 <= i < |order| ==> order[i] in content
    requires order != []
    ensures var last := |order| - 1;
      Expected(content, order[..last], Pieces(order[last])).Some? <==> exists j :: Clash(order, last, j)
  {
    var last := |order| - 1;
    var init, key := order[..last], order[last];
    ExpectedSome(content, init, Pieces(key));
    if Expected(content, init, Pieces(key)).Some? {
      var j :| 0 <= j < |init| && ChainValue(Pieces(init[j]), content[init[j]].value, Pieces(key)).Some?;
      assert init[j] == order[j];
      ChainValueSome(Pieces(order[j]), content[order[j]].value, Pieces(key));
      assert Clash(order, last, j);
    }
    forall j | Clash(order, last, j)
      ensures Expected(content, init, Pieces(key)).Some?
    {
      assert init[j] == order[j];
      ChainValueSome(Pieces(order[j]), content[order[j]].value, Pieces(key));
    }
  }

  /** Merging the last key's chain into the forest of the earlier keys. */
  lemma BuildForestStep(content: map<string, Line>, order: seq<string>, f: seq<Node>)
    requires forall i :: 0 <= i < |order| ==> order[i] in content
    requires order != []
    requires BuildForest(content, order[..|order| - 1]) == Ok(f)
    requires Roots(f)
    requires forall path :: Lookup(f, path) == Expected(content, order[..|order| - 1], path)
    ensures var r, last := BuildForest(content, order), |order| - 1;
      && (r.Err? <==> exists j :: Clash(order, last, j))
      && (r.Ok? ==> Roots(r.value))
      && (r.Ok? ==> forall path :: Lookup(r.value, path) == Expected(content, order, path))
  {
    var last := |order| - 1;
    var key := order[last];
    var v := content[key].value;
    var n := Chain(Pieces(key), 0, v);
    assert NewNode(Pieces(key), v).value == n;
    var r := BuildForest(content, order);
    assert r == Merge(f, n);
    MergeChain(f, n);
    ClashWithLast(content, order);
    if r.Ok? {
      forall path
        ensures Lookup(r.value, path) == Expected(content, order, path)
      {
        ChainLookup(Pieces(key), 0, v, path);
      }
    }
  }

  /** The forest built from the map: it panics exactly when some key's
      names are a prefix of an earlier key's names (including a repeat of
      them); otherwise it is a well-formed forest in which every path gives
      the answer of the first key whose chain knows it. */
  lemma {:induction false} BuildForestSpec(content: map<string, Line>, order: seq<string>)
    requires forall i :: 0 <= i < |order| ==> order[i] in content
    ensures var r := BuildForest(content, order);
      && (r.Err? <==> exists i, j :: Clash(order, i, j))
      && (r.Ok? ==> Roots(r.value))
      && (r.Ok? ==> forall path :: Lookup(r.value, path) == Expected(content, order, path))
    decreases |order|
  {
    var r := BuildForest(content, order);
    if order != [] {
      var last := |order| - 1;
      var init := order[..last];
      BuildForestSpec(content, init);
      ClashesOfInit(order);
      var prev := BuildForest(content, init);
      if prev.Ok? {
        BuildForestStep(content, order, prev.value);
        if r.Err? {
          var j :| Clash(order, last, j);
        }
      } else {
        assert r.Err?;
        var i, j :| Clash(init, i, j);
        assert Clash(order, i, j);
      }
    }
  }

  /** The forest built from the map has distinct root names and unique
      sibling names at every depth. */
  lemma {:induction false} BuildForestUnique(content: map<string, Line>, order: seq<string>)
    requires forall i :: 0 <= i < |order| ==> order[i] in content
    ensures BuildForest(content, order).Ok? ==>
      Roots(BuildForest(content, order).value) && UniqueForest(BuildForest(content, order).value)
    decreases |order|
  {
    if order != [] {
      var init := order[..|order| - 1];
      var key := order[|order| - 1];
      BuildForestUnique(content, init);
      var prev := BuildForest(content, init);
      if prev.Ok? {
        var n := Chain(Pieces(key), 0, content[key].value);
        assert NewNode(Pieces(key), content[key].value).value == n;
        assert BuildForest(content, order) == Merge(prev.value, n);
        MergeChain(prev.value, n);
        MergeUnique(prev.value, n);
      }
    }
  }

  /** When the forest is built, every key is found at its names with its
      parsed value. */
  lemma BuildForestFindsKeys(content: map<string, Line>, order: seq<string>)
    requires forall i :: 0 <= i < |order| ==> order[i] in content
    requires BuildForest(content, order).Ok?
    ensures forall i :: 0 <= i < |order| ==>
      Lookup(BuildForest(content, order).value, Pieces(order[i])) == Some(Parse(content[order[i]].value))
  {
    BuildForestSpec(content, order);
    forall i | 0 <= i < |order|
      ensures Lookup(BuildForest(content, order).value, Pieces(order[i])) == Some(Parse(content[order[i]].value))
    {
      var path := Pieces(order[i]);
      forall j | 0 <= j < i
        ensures ChainValue(Pieces(order[j]), content[order[j]].value, path).None?
      {
        ChainValueSome(Pieces(order[j]), content[order[j]].value, path);
        assert !Clash(order, i, j);
      }
      ExpectedFirst(content, order, i, path);
    }
  }

  /** Parsing a properties file: the forest is built unless a key's names
      are a prefix of an earlier key's names, and then every key is found
      with its parsed value. */
  lemma ParsePropertiesSpec(lines: seq<string>, d: Delimiter, order: seq<string>)
    requires Enumerates(order, ReadFile(lines, d).content.Keys)
    ensures var r := ParseProperties(lines, d, order);
      && (r.Err? <==> exists i, j :: Clash(order, i, j))
      && (r.Ok? ==> Roots(r.value) && UniqueForest(r.value))
      && (r.Ok? ==> forall i :: 0 <= i < |order| ==>
            Lookup(r.value, Pieces(order[i])) == Some(Parse(ReadFile(lines, d).content[order[i]].value)))
  {
    var content := ReadFile(lines, d).content;
    BuildForestSpec(content, order);
    BuildForestUnique(content, order);
    if BuildForest(content, order).Ok? {
      BuildForestFindsKeys(content, order);
    }
  }
}
