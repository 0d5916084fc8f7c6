/** The configuration tree of src/node.rs: `Node`, the chain built from a
    dotted key, and `find_common_node`, which grafts a new chain into an
    existing tree.

    The Rust node also holds `parent: Option<Rc<Node>>`, a snapshot of its
    parent taken when it was created; it is only ever read to recover the
    names of the ancestors while printing.  The model drops the pointer and
    hands the ancestor names down instead (see module NodeRender).
 */
module Tree {
  import opened Outcomes
  import opened Strings
  import opened NodeTypes

  datatype Node = Node(name: string, level: nat, value: NodeType, children: seq<Node>)

  /** `PartialEq for Node`: name and depth, not value or children. */
  predicate Same(a: Node, b: Node) {
    a.name == b.name && a.level == b.level
  }

  /** `Node::new_json_node` (and `new_from_name`): a valueless root. */
  function NewRoot(name: string): Node {
    Node(name, 0, NoValue, [])
  }

  /** Every child sits exactly one level below its parent. */
  predicate LevelsOK(n: Node) {
    forall i :: 0 <= i < |n.children| ==> n.children[i].level == n.level + 1 && LevelsOK(n.children[i])
  }

  /** A tree in which no node has more than one child. */
  predicate IsChain(n: Node) {
    |n.children| <= 1 && (|n.children| == 1 ==> IsChain(n.children[0]))
  }

  /** The names met walking down the first children. */
  function SpineNames(n: Node): (r: seq<string>)
    ensures |r| >= 1 && r[0] == n.name
  {
    [n.name] + if n.children == [] then [] else SpineNames(n.children[0])
  }

  /** `create_child_nodes` below a node named `parts[0]` at `level`: one
      node per part, the parsed value on the last one only. */
  function Chain(parts: seq<string>, level: nat, value: string): (r: Node)
    requires |parts| > 0
    ensures r.name == parts[0] && r.level == level
    ensures LevelsOK(r) && IsChain(r) && SpineNames(r) == parts
    ensures r.value == if |parts| == 1 then Parse(value) else NoValue
    decreases |parts|
  {
    if |parts| == 1 then Node(parts[0], level, Parse(value), [])
    else
      var rest := Chain(parts[1..], level + 1, value);
      assert [parts[0]] + parts[1..] == parts;
      Node(parts[0], level, NoValue, [rest])
  }

  /** `Node::new`: the root is `node_parts[0]`, which panics when there are
      no parts. */
  function NewNode(parts: seq<string>, value: string): (r: Result<Node, Panic>)
    ensures r.Err? <==> parts == []
    ensures r.Ok? ==> r.value.level == 0 && LevelsOK(r.value) && IsChain(r.value)
    ensures r.Ok? ==> SpineNames(r.value) == parts
  {
    if parts == [] then Err(IndexOutOfBounds) else Ok(Chain(parts, 0, value))
  }

  /** Position of the first node called `name`, or `|f|`. */
  function NameIndex(f: seq<Node>, name: string): (i: nat)
    ensures i <= |f|
    ensures forall j :: 0 <= j < i ==> f[j].name != name
    ensures i < |f| ==> f[i].name == name
  {
    if f == [] then 0 else if f[0].name == name then 0 else 1 + NameIndex(f[1..], name)
  }

  lemma EmptyPrefix(f: seq<Node>)
    ensures [] + f == f
  {
  }

  lemma PushAssoc(f: seq<Node>, n: Node, g: seq<Node>)
    ensures f + [n] + g == f + ([n] + g)
  {
  }

  lemma NameIndexCons(n: Node, rest: seq<Node>, name: string)
    ensures NameIndex([n] + rest, name) == if n.name == name then 0 else 1 + NameIndex(rest, name)
  {
    assert ([n] + rest)[1..] == rest;
  }

  /** Position of the first node `Same` as `n`, or `|f|`: the loop over the
      children in `find_common_node`. */
  function SameIndex(f: seq<Node>, n: Node): (i: nat)
    ensures i <= |f|
    ensures forall j :: 0 <= j < i ==> !Same(f[j], n)
    ensures i < |f| ==> Same(f[i], n)
  {
    if f == [] then 0 else if Same(f[0], n) then 0 else 1 + SameIndex(f[1..], n)
  }

  /** The value found by following `path` by name from the nodes `f`, taking
      the first node of each name; `None` when the path leaves the tree. */
  function Lookup(f: seq<Node>, path: seq<string>): Option<NodeType>
    decreases |path|
  {
    if path == [] then None
    else
      var i := NameIndex(f, path[0]);
      if i == |f| then None
      else if |path| == 1 then Some(f[i].value)
      else Lookup(f[i].children, path[1..])
  }

  /** The first lookup when it succeeds, else the second. */
  function Override(a: Option<NodeType>, b: Option<NodeType>): Option<NodeType> {
    if a.Some? then a else b
  }

  /** No two of the nodes share a name. */
  predicate DistinctNames(f: seq<Node>) {
    forall i, j :: 0 <= i < j < |f| ==> f[i].name != f[j].name
  }

  /** Sibling names are unique at every depth below `n`. */
  predicate UniqueNames(n: Node)
    decreases n, 1
  {
    UniqueForest(n.children)
  }

  /** The nodes have distinct names, and so do the siblings below each. */
  predicate UniqueForest(f: seq<Node>)
    decreases f, 0
  {
    DistinctNames(f) && forall i :: 0 <= i < |f| ==> UniqueNames(f[i])
  }

  /** `b` begins with nodes named like those of `a`, in the same order. */
  predicate KeepsNames(a: seq<Node>, b: seq<Node>) {
    |a| <= |b| && forall i :: 0 <= i < |a| ==> b[i].name == a[i].name
  }

  /** `Node::find_common_node`.  `Ok((true, _))` means "not this root, try
      the next one"; `Ok((false, t))` means the new node was merged into the
      tree, giving `t`.  Indexing `children[0]` of a node without children
      panics. */
  function FindCommonNode(self: Node, inc: Node): (r: Result<(bool, Node), Panic>)
    ensures r.Ok? && r.value.0 ==> r.value.1 == self
    ensures r.Ok? ==> r.value.1.name == self.name && r.value.1.level == self.level
    ensures r.Ok? ==> r.value.1.value == self.value
    ensures r.Ok? ==> KeepsNames(self.children, r.value.1.children)
    ensures r.Ok? ==> |r.value.1.children| <= |self.children| + 1
    decreases inc
  {
    if self.level == 0 && inc.level == 0 && !Same(self, inc) then Ok((true, self))
    else if Same(self, inc) then
      if inc.children == [] then Err(IndexOutOfBounds)
      else FindCommonNode(self, inc.children[0])
    else
      var i := SameIndex(self.children, inc);
      if i < |self.children| then
        if inc.children == [] then Err(IndexOutOfBounds)
        else
          var sub :- FindCommonNode(self.children[i], inc.children[0]);
          Ok((sub.0, self.(children := self.children[i := sub.1])))
      else
        Ok((false, self.(children := self.children + [inc])))
  }

  /** Among children of one level, `Same` is equality of names. */
  lemma {:induction false} SameIndexIsNameIndex(f: seq<Node>, n: Node)
    requires forall j :: 0 <= j < |f| ==> f[j].level == n.level
    ensures SameIndex(f, n) == NameIndex(f, n.name)
  {
    if f != [] {
      SameIndexIsNameIndex(f[1..], n);
    }
  }

  lemma {:induction false} NameIndexAppend(f: seq<Node>, x: Node, name: string)
    ensures NameIndex(f + [x], name) ==
      if NameIndex(f, name) < |f| then NameIndex(f, name)
      else if x.name == name then |f| else |f| + 1
  {
    if f != [] {
      assert (f + [x])[1..] == f[1..] + [x];
      NameIndexAppend(f[1..], x, name);
    } else {
      assert [x][1..] == [];
    }
  }

  lemma {:induction false} NameIndexUpdate(f: seq<Node>, i: nat, x: Node, name: string)
    requires i < |f| && x.name == f[i].name
    ensures NameIndex(f[i := x], name) == NameIndex(f, name)
  {
    if i > 0 {
      assert f[i := x][1..] == f[1..][i - 1 := x];
      NameIndexUpdate(f[1..], i - 1, x, name);
    }
  }

  /** Appending a node changes only the lookups that start at its name and
      that no earlier node already answers. */
  lemma LookupAppend(f: seq<Node>, x: Node, path: seq<string>)
    requires NameIndex(f, x.name) == |f|
    ensures Lookup(f + [x], path) == Override(Lookup(f, path), Lookup([x], path))
  {
    if path != [] {
      NameIndexAppend(f, x, path[0]);
      NameIndexAppend([], x, path[0]);
      assert [] + [x] == [x];
      if NameIndex(f, path[0]) < |f| {
        assert (f + [x])[NameIndex(f, path[0])] == f[NameIndex(f, path[0])];
      }
    }
  }

  /** Replacing a node by one of the same name and value keeps the lookups
      that do not pass through it. */
  lemma LookupUpdate(f: seq<Node>, i: nat, x: Node, path: seq<string>)
    requires i < |f| && x.name == f[i].name && x.value == f[i].value
    requires |path| >= 1 && NameIndex(f, path[0]) == i
    ensures Lookup(f[i := x], path) ==
      if |path| == 1 then Some(f[i].value) else Lookup(x.children, path[1..])
  {
    NameIndexUpdate(f, i, x, path[0]);
  }

  lemma LookupUpdateElsewhere(f: seq<Node>, i: nat, x: Node, path: seq<string>)
    requires i < |f| && x.name == f[i].name
    requires |path| >= 1 && NameIndex(f, path[0]) != i
    ensures Lookup(f[i := x], path) == Lookup(f, path)
  {
    NameIndexUpdate(f, i, x, path[0]);
  }

  /** Looking up below a chain: the chain's only child answers. */
  lemma LookupChain(inc: Node, path: seq<string>)
    requires IsChain(inc) && |path| >= 1
    ensures Lookup([inc], path) ==
      if path[0] != inc.name then None
      else if |path| == 1 then Some(inc.value)
      else if inc.children == [] then None
      else Lookup([inc.children[0]], path[1..])
  {
    if path[0] == inc.name && |path| > 1 && inc.children != [] {
      assert inc.children == [inc.children[0]];
    }
  }

  /** The child case of `find_common_node` (the new node one level below
      `self`) for a chain: it panics exactly when the chain's whole path is
      already present, and otherwise adds the chain's paths and changes no
      lookup that already succeeded. */
  lemma {:induction false} GraftChild(self: Node, inc: Node)
    requires LevelsOK(self) && LevelsOK(inc) && IsChain(inc)
    requires inc.level == self.level + 1
    ensures var r := FindCommonNode(self, inc);
      && (r.Err? <==> Lookup(self.children, SpineNames(inc)).Some?)
      && (r.Ok? ==> !r.value.0 && LevelsOK(r.value.1))
      && (r.Ok? ==> forall path ::
                      Lookup(r.value.1.children, path) == Override(Lookup(self.children, path), Lookup([inc], path)))
    decreases inc
  {
    var cs := self.children;
    assert !Same(self, inc);
    SameIndexIsNameIndex(cs, inc);
    var i := NameIndex(cs, inc.name);
    var r := FindCommonNode(self, inc);
    if i < |cs| {
      if inc.children != [] {
        var child, next := cs[i], inc.children[0];
        assert LevelsOK(child) && LevelsOK(next);
        assert SpineNames(inc) == [inc.name] + SpineNames(next);
        GraftChild(child, next);
        var sub := FindCommonNode(child, next);
        if sub.Ok? {
          var t := sub.value.1;
          var cs' := cs[i := t];
          assert r == Ok((false, self.(children := cs')));
          forall path
            ensures Lookup(cs', path) == Override(Lookup(cs, path), Lookup([inc], path))
          {
            GraftedLookup(cs, i, t, inc, path);
          }
        }
      }
    } else {
      forall path
        ensures Lookup(cs + [inc], path) == Override(Lookup(cs, path), Lookup([inc], path))
      {
        LookupAppend(cs, inc, path);
      }
    }
  }

  /** A child replaced by the graft of a chain's tail finds what it found
      before, overridden by the chain. */
  lemma GraftedLookup(cs: seq<Node>, i: nat, t: Node, inc: Node, path: seq<string>)
    requires i < |cs| && NameIndex(cs, inc.name) == i
    requires IsChain(inc) && inc.children != []
    requires t.name == cs[i].name && t.value == cs[i].value
    requires forall p :: Lookup(t.children, p) == Override(Lookup(cs[i].children, p), Lookup([inc.children[0]], p))
    ensures Lookup(cs[i := t], path) == Override(Lookup(cs, path), Lookup([inc], path))
  {
    if path != [] {
      LookupChain(inc, path);
      if path[0] == inc.name {
        LookupUpdate(cs, i, t, path);
      } else {
        LookupUpdateElsewhere(cs, i, t, path);
      }
    }
  }

  /** A root meeting a root of another name is left alone. */
  lemma OtherRootUntouched(self: Node, inc: Node)
    requires self.level == 0 && inc.level == 0 && self.name != inc.name
    ensures FindCommonNode(self, inc) == Ok((true, self))
  {
  }

  /** A root meeting a chain whose root has its name: the chain below the
      shared root is grafted in, or the call panics when the whole path is
      already present. */
  lemma SameRootGraft(self: Node, inc: Node)
    requires self.level == 0 && inc.level == 0 && self.name == inc.name
    requires LevelsOK(self) && LevelsOK(inc) && IsChain(inc)
    ensures var r := FindCommonNode(self, inc);
      && (r.Err? <==> Lookup([self], SpineNames(inc)).Some?)
      && (r.Ok? ==> !r.value.0 && LevelsOK(r.value.1))
      && (r.Ok? ==> forall path ::
                      Lookup([r.value.1], path) == Override(Lookup([self], path), Lookup([inc], path)))
  {
    var r := FindCommonNode(self, inc);
    if inc.children != [] {
      var next := inc.children[0];
      assert LevelsOK(next);
      GraftChild(self, next);
      assert SpineNames(inc) == [inc.name] + SpineNames(next);
      if r.Ok? {
        var t := r.value.1;
        forall path
          ensures Lookup([t], path) == Override(Lookup([self], path), Lookup([inc], path))
        {
          if path != [] {
            LookupChain(inc, path);
          }
        }
      }
    }
  }

  /** A chain has at most one child per node, so no two siblings share a
      name. */
  lemma {:induction false} ChainUnique(n: Node)
    requires IsChain(n)
    ensures UniqueNames(n)
    decreases n
  {
    if n.children != [] {
      ChainUnique(n.children[0]);
    }
  }

  /** Replacing a node by one of the same name keeps names unique. */
  lemma UpdateUnique(f: seq<Node>, k: nat, t: Node)
    requires UniqueForest(f) && k < |f|
    requires t.name == f[k].name && UniqueNames(t)
    ensures UniqueForest(f[k := t])
  {
  }

  /** Appending a node of a new name keeps names unique. */
  lemma AppendUnique(f: seq<Node>, x: Node)
    requires UniqueForest(f) && UniqueNames(x)
    requires forall j :: 0 <= j < |f| ==> f[j].name != x.name
    ensures UniqueForest(f + [x])
  {
  }

  /** The child case of `find_common_node` for a chain keeps sibling names
      unique: the chain either descends into the child of its name or
      becomes a child of a name not yet present. */
  lemma {:induction false} GraftChildUnique(self: Node, inc: Node)
    requires LevelsOK(self) && LevelsOK(inc) && IsChain(inc) && UniqueNames(self)
    requires inc.level == self.level + 1
    ensures FindCommonNode(self, inc).Ok? ==> UniqueNames(FindCommonNode(self, inc).value.1)
    decreases inc
  {
    var cs := self.children;
    assert !Same(self, inc);
    var i := SameIndex(cs, inc);
    var r := FindCommonNode(self, inc);
    if i < |cs| {
      if inc.children != [] {
        var child, next := cs[i], inc.children[0];
        assert LevelsOK(child) && LevelsOK(next) && UniqueNames(child);
        GraftChildUnique(child, next);
        var sub := FindCommonNode(child, next);
        if sub.Ok? {
          assert r == Ok((sub.value.0, self.(children := cs[i := sub.value.1])));
          UpdateUnique(cs, i, sub.value.1);
        }
      }
    } else {
      assert r == Ok((false, self.(children := cs + [inc])));
      ChainUnique(inc);
      forall j | 0 <= j < |cs|
        ensures cs[j].name != inc.name
      {
        assert !Same(cs[j], inc);
      }
      AppendUnique(cs, inc);
    }
  }

  /** Merging a chain into the root of its name keeps sibling names unique
      at every depth. */
  lemma SameRootUnique(self: Node, inc: Node)
    requires self.level == 0 && inc.level == 0 && self.name == inc.name
    requires LevelsOK(self) && LevelsOK(inc) && IsChain(inc) && UniqueNames(self)
    ensures FindCommonNode(self, inc).Ok? ==> UniqueNames(FindCommonNode(self, inc).value.1)
  {
    if inc.children != [] {
      assert LevelsOK(inc.children[0]);
      GraftChildUnique(self, inc.children[0]);
    }
  }
}
