/** Printing a tree as properties text: `impl Into<String> for &Node` and
    `parent_name` in src/node.rs.

    A node without a value prints its children; a node with a value prints
    one line `path=value` and nothing below it.  The Rust code rebuilds the
    path from the parent pointers: `parent_name` gives the names from the
    node up to the root joined by '.', and the printer splits that text at
    every '.' and joins the pieces back in reverse.  When a name itself
    contains a '.' (possible for JSON and YAML keys) the pieces of that name
    come out swapped; `PathAsWritten` keeps that behaviour and `PropertyPath`
    is the root-to-node path the printer is evidently meant to produce.
 */
module NodeRender {
  import opened Strings
  import opened NodeTypes
  import opened Tree

  /** The path of a node, root first, as one dotted key. */
  function PropertyPath(names: seq<string>): string {
    Join(names, ".")
  }

  /** `parent_name`: the node's name, then its parent's, up to the root. */
  function ParentName(names: seq<string>): string {
    Join(Reverse(names), ".")
  }

  /** The path as the printer builds it: `parent_name`, split at '.', the
      pieces reversed and joined with '.'. */
  function PathAsWritten(names: seq<string>): string {
    Join(Reverse(Split(ParentName(names), '.')), ".")
  }

  /** One output line. */
  function Entry(names: seq<string>, value: NodeType): string {
    PropertyPath(names) + "=" + ToString(value) + "\n"
  }

  /** `Into<String> for &Node` below the ancestors `ancestors`. */
  function Render(n: Node, ancestors: seq<string>): string
    decreases n, 1
  {
    if n.value == NoValue then RenderAll(n.children, ancestors + [n.name])
    else Entry(ancestors + [n.name], n.value)
  }

  function RenderAll(f: seq<Node>, ancestors: seq<string>): string
    decreases f, 0
  {
    if f == [] then "" else Render(f[0], ancestors) + RenderAll(f[1..], ancestors)
  }

  /** For names without '.', the printer's reversal undoes itself and gives
      the root-to-node path. */
  lemma PathAsWrittenAgrees(names: seq<string>)
    requires |names| >= 1
    requires forall k :: 0 <= k < |names| ==> '.' !in names[k]
    ensures PathAsWritten(names) == PropertyPath(names)
  {
    var rev := Reverse(names);
    assert forall k :: 0 <= k < |rev| ==> '.' !in rev[k] by {
      forall k | 0 <= k < |rev|
        ensures '.' !in rev[k]
      {
        assert rev[k] == names[|names| - 1 - k];
      }
    }
    SplitJoin(rev, '.');
    ReverseReverse(names);
  }

  /** A single node named "a.b" is printed under the path "b.a". */
  lemma PathAsWrittenSwapsDottedName()
    ensures PropertyPath(["a.b"]) == "a.b"
    ensures PathAsWritten(["a.b"]) == "b.a"
  {
    assert Reverse(["a.b"]) == ["a.b"];
    assert ParentName(["a.b"]) == "a.b";
    SplitTwo("a", "b");
    assert Reverse(["a", "b"]) == ["b", "a"];
    JoinCons("b", ["a"], ".");
  }

  lemma SplitTwo(a: string, b: string)
    requires '.' !in a && '.' !in b
    ensures Split(a + "." + b, '.') == [a, b]
  {
    SplitJoin([a, b], '.');
    JoinCons(a, [b], ".");
    assert [a] + [b] == [a, b];
  }

  /** A node with a value prints its one line, whatever lies below it: its
      children are never printed. */
  lemma RenderValued(n: Node, ancestors: seq<string>, children: seq<Node>)
    requires n.value != NoValue
    ensures Render(n.(children := children), ancestors) == Render(n, ancestors)
    ensures Render(n, ancestors) == PropertyPath(ancestors + [n.name]) + "=" + ToString(n.value) + "\n"
  {
  }

  /** Printing a list of trees prints each in turn. */
  lemma {:induction false} RenderAllAppend(f: seq<Node>, g: seq<Node>, ancestors: seq<string>)
    ensures RenderAll(f + g, ancestors) == RenderAll(f, ancestors) + RenderAll(g, ancestors)
  {
    if f == [] {
      assert f + g == g;
    } else {
      assert (f + g)[1..] == f[1..] + g;
      RenderAllAppend(f[1..], g, ancestors);
    }
  }

  /** The chain built from a key prints as one line: the key's parts joined
      by '.', '=', the printed value. */
  lemma {:induction false} RenderChain(parts: seq<string>, level: nat, value: string, ancestors: seq<string>)
    requires |parts| > 0
    ensures Render(Chain(parts, level, value), ancestors) == Entry(ancestors + parts, Parse(value))
    decreases |parts|
  {
    if |parts| > 1 {
      RenderChainLink(parts, level, value, ancestors);
      RenderChain(parts[1..], level + 1, value, ancestors + [parts[0]]);
      EntryShift(ancestors, parts, Parse(value));
    } else {
      RenderChainEnd(parts, level, value, ancestors);
    }
  }

  /** A link of a chain prints what the rest of the chain prints. */
  lemma RenderChainLink(parts: seq<string>, level: nat, value: string, ancestors: seq<string>)
    requires |parts| > 1
    ensures Render(Chain(parts, level, value), ancestors) ==
      Render(Chain(parts[1..], level + 1, value), ancestors + [parts[0]])
  {
    var rest := Chain(parts[1..], level + 1, value);
    var below := ancestors + [parts[0]];
    assert Chain(parts, level, value) == Node(parts[0], level, NoValue, [rest]);
    RenderSingle(rest, below);
  }

  lemma RenderChainEnd(parts: seq<string>, level: nat, value: string, ancestors: seq<string>)
    requires |parts| == 1
    ensures Render(Chain(parts, level, value), ancestors) == Entry(ancestors + parts, Parse(value))
  {
    assert Chain(parts, level, value) == Node(parts[0], level, Parse(value), []);
    assert [parts[0]] == parts;
  }

  lemma EntryShift(ancestors: seq<string>, parts: seq<string>, v: NodeType)
    requires |parts| > 0
    ensures Entry((ancestors + [parts[0]]) + parts[1..], v) == Entry(ancestors + parts, v)
  {
    assert (ancestors + [parts[0]]) + parts[1..] == ancestors + parts;
  }

  lemma RenderSingle(n: Node, ancestors: seq<string>)
    ensures RenderAll([n], ancestors) == Render(n, ancestors)
  {
    assert [n][1..] == [];
  }

  /** A property key printed back: splitting the key at '.' and printing the
      chain gives the key itself. */
  lemma RenderKey(key: string, value: string)
    ensures RenderAll([Chain(Split(key, '.'), 0, value)], []) == key + "=" + ToString(Parse(value)) + "\n"
  {
    var c := Chain(Split(key, '.'), 0, value);
    RenderChain(Split(key, '.'), 0, value, []);
    assert [] + Split(key, '.') == Split(key, '.');
    JoinSplit(key, '.');
    assert RenderAll([c], []) == Render(c, []) + RenderAll([], []);
  }
}
