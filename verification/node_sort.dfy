/** Sorting the tree: `Node::sort` (src/node.rs) sorts every subtree and
    then the node's own children; `Nodes::sort` (src/nodes.rs) does the same
    for the roots.  Both use `slice::sort`, which is stable, with
    `Ord for Node`, which compares names only. */
module NodeSort {
  import opened Outcomes
  import opened Strings
  import opened NodeTypes
  import opened Tree

  /** Every node's name is at most every later node's name. */
  predicate SortedByName(s: seq<Node>) {
    forall i, j :: 0 <= i < j < |s| ==> LexLe(s[i].name, s[j].name)
  }

  /** Inserts `x` after every node whose name is not greater: the step of a
      stable insertion sort. */
  function Insert(x: Node, s: seq<Node>): (r: seq<Node>)
    ensures multiset(r) == multiset(s) + multiset{x}
  {
    if s == [] || !LexLe(s[0].name, x.name) then [x] + s
    else
      assert s == [s[0]] + s[1..];
      [s[0]] + Insert(x, s[1..])
  }

  /** A stable sort by name. */
  function SortByName(s: seq<Node>): (r: seq<Node>)
    ensures multiset(r) == multiset(s)
  {
    if s == [] then []
    else
      assert s == s[..|s| - 1] + [s[|s| - 1]];
      Insert(s[|s| - 1], SortByName(s[..|s| - 1]))
  }

  /** `Node::sort`. */
  function SortNode(n: Node): (r: Node)
    ensures r.name == n.name && r.level == n.level && r.value == n.value
    decreases n, 2
  {
    n.(children := SortForest(n.children))
  }

  /** `Nodes::sort`, and the body of `Node::sort` below a node: sort every
      tree, then order the trees by name.  `Node::sort` skips children
      without children, on which sorting changes nothing. */
  function SortForest(f: seq<Node>): (r: seq<Node>)
    ensures multiset(r) == multiset(SortEach(f))
    decreases f, 1
  {
    SortByName(SortEach(f))
  }

  function SortEach(f: seq<Node>): (r: seq<Node>)
    ensures |r| == |f|
    ensures forall i :: 0 <= i < |f| ==> r[i] == SortNode(f[i])
    decreases f, 0
  {
    seq(|f|, i requires 0 <= i < |f| => SortNode(f[i]))
  }

  /** The first node of a name, if any. */
  function Named(f: seq<Node>, name: string): Option<Node> {
    var i := NameIndex(f, name);
    if i < |f| then Some(f[i]) else None
  }

  lemma {:induction false} InsertSorted(x: Node, s: seq<Node>)
    requires SortedByName(s)
    ensures SortedByName(Insert(x, s))
  {
    if s == [] || !LexLe(s[0].name, x.name) {
      var r := [x] + s;
      forall i, j | 0 <= i < j < |r|
        ensures LexLe(r[i].name, r[j].name)
      {
        if i == 0 {
          LexLeTotal(s[0].name, x.name);
          if j > 1 {
            LexLeTransitive(x.name, s[0].name, s[j - 1].name);
          }
        }
      }
    } else {
      InsertSorted(x, s[1..]);
      var rest := Insert(x, s[1..]);
      var r := [s[0]] + rest;
      forall i, j | 0 <= i < j < |r|
        ensures LexLe(r[i].name, r[j].name)
      {
        if i == 0 {
          var y := rest[j - 1];
          assert y in multiset(rest);
          assert y in multiset(s[1..]) || y == x;
          if y != x {
            var k :| 0 <= k < |s[1..]| && s[1..][k] == y;
            assert s[k + 1] == y;
          }
        }
      }
    }
  }

  lemma {:induction false} SortByNameSorted(s: seq<Node>)
    ensures SortedByName(SortByName(s))
  {
    if s != [] {
      SortByNameSorted(s[..|s| - 1]);
      InsertSorted(s[|s| - 1], SortByName(s[..|s| - 1]));
    }
  }

  lemma NamedCons(y: Node, t: seq<Node>, name: string)
    ensures Named([y] + t, name) == if y.name == name then Some(y) else Named(t, name)
  {
    assert ([y] + t)[1..] == t;
  }

  lemma NamedSnoc(t: seq<Node>, x: Node, name: string)
    ensures Named(t + [x], name) ==
      if Named(t, name).Some? then Named(t, name) else if x.name == name then Some(x) else None
  {
    NameIndexAppend(t, x, name);
    var i := NameIndex(t, name);
    if i < |t| {
      assert (t + [x])[i] == t[i];
    }
  }

  /** Inserting into a sorted sequence finds names as appending would: the
      insertion goes after every node of the same name. */
  lemma {:induction false} InsertNamed(x: Node, s: seq<Node>, name: string)
    requires SortedByName(s)
    ensures Named(Insert(x, s), name) == Named(s + [x], name)
  {
    if s == [] {
      assert [x] + s == s + [x];
    } else if !LexLe(s[0].name, x.name) {
      InsertNamedFront(x, s, name);
    } else {
      InsertNamed(x, s[1..], name);
      InsertNamedStep(x, s, name);
    }
  }

  /** A node that sorts before the first of a sorted sequence: no node
      after it has its name. */
  lemma InsertNamedFront(x: Node, s: seq<Node>, name: string)
    requires SortedByName(s) && s != [] && !LexLe(s[0].name, x.name)
    ensures Named([x] + s, name) == Named(s + [x], name)
  {
    NamedSnoc(s, x, name);
    NamedCons(x, s, name);
    if x.name == name {
      forall j | 0 <= j < |s|
        ensures s[j].name != name
      {
        LexLeTotal(s[j].name, s[j].name);
        assert LexLe(s[0].name, s[j].name);
      }
      assert NameIndex(s, name) == |s|;
    }
  }

  lemma InsertNamedStep(x: Node, s: seq<Node>, name: string)
    requires s != [] && LexLe(s[0].name, x.name)
    requires Named(Insert(x, s[1..]), name) == Named(s[1..] + [x], name)
    ensures Named(Insert(x, s), name) == Named(s + [x], name)
  {
    var rest := s[1..];
    assert Insert(x, s) == [s[0]] + Insert(x, rest);
    NamedCons(s[0], Insert(x, rest), name);
    NamedCons(s[0], rest + [x], name);
    AppendAssoc([s[0]], rest, [x]);
    ConsTail(s);
  }

  lemma {:induction false} SortByNameNamed(s: seq<Node>, name: string)
    ensures Named(SortByName(s), name) == Named(s, name)
  {
    if s != [] {
      var init, last := s[..|s| - 1], s[|s| - 1];
      assert s == init + [last];
      SortByNameNamed(init, name);
      SortByNameSorted(init);
      InsertNamed(last, SortByName(init), name);
      NameIndexAppend(SortByName(init), last, name);
      NameIndexAppend(init, last, name);
      var i := NameIndex(init, name);
      if i < |init| {
        assert s[i] == init[i];
      }
    }
  }

  lemma {:induction false} SortEachNamed(f: seq<Node>, name: string)
    ensures NameIndex(SortEach(f), name) == NameIndex(f, name)
  {
    if f != [] {
      assert SortEach(f)[1..] == SortEach(f[1..]);
      SortEachNamed(f[1..], name);
    }
  }

  /** Sorting a forest changes no lookup: the first node of every name keeps
      its value, and so does everything below it. */
  lemma {:induction false} SortForestLookup(f: seq<Node>, path: seq<string>)
    ensures Lookup(SortForest(f), path) == Lookup(f, path)
    decreases |path|
  {
    if path != [] {
      var sorted := SortForest(f);
      SortByNameNamed(SortEach(f), path[0]);
      SortEachNamed(f, path[0]);
      var i := NameIndex(f, path[0]);
      var k := NameIndex(sorted, path[0]);
      if i < |f| {
        assert sorted[k] == SortNode(f[i]);
        if |path| > 1 {
          SortForestLookup(f[i].children, path[1..]);
        }
      }
    }
  }

  /** Children sorted by name at every depth. */
  predicate DeepSorted(n: Node) {
    SortedByName(n.children) && forall i :: 0 <= i < |n.children| ==> DeepSorted(n.children[i])
  }

  /** The result of `Node::sort` is sorted at every depth, and levels stay
      consistent. */
  lemma {:induction false} SortNodeSorts(n: Node)
    ensures DeepSorted(SortNode(n))
    ensures LevelsOK(n) ==> LevelsOK(SortNode(n))
    decreases n
  {
    var each := SortEach(n.children);
    var r := SortForest(n.children);
    SortByNameSorted(each);
    forall i | 0 <= i < |r|
      ensures DeepSorted(r[i])
      ensures LevelsOK(n) ==> r[i].level == n.level + 1 && LevelsOK(r[i])
    {
      assert r[i] in multiset(each);
      var k :| 0 <= k < |each| && each[k] == r[i];
      SortNodeSorts(n.children[k]);
    }
  }

  /** Sorting every tree of a forest sorts each one in place: position i
      holds root i with its name, level and value, sorted at every depth,
      answering every path below it as before. */
  lemma SortEachSorts(f: seq<Node>)
    ensures |SortEach(f)| == |f|
    ensures forall i :: 0 <= i < |f| ==>
      var r := SortEach(f)[i];
      && r.name == f[i].name && r.level == f[i].level && r.value == f[i].value
      && DeepSorted(r)
      && forall path :: Lookup(r.children, path) == Lookup(f[i].children, path)
  {
    forall i | 0 <= i < |f|
      ensures DeepSorted(SortEach(f)[i])
      ensures forall path :: Lookup(SortEach(f)[i].children, path) == Lookup(f[i].children, path)
    {
      SortNodeSorts(f[i]);
      forall path
        ensures Lookup(SortForest(f[i].children), path) == Lookup(f[i].children, path)
      {
        SortForestLookup(f[i].children, path);
      }
    }
  }

  lemma {:induction false} InsertAtEnd(x: Node, s: seq<Node>)
    requires forall k :: 0 <= k < |s| ==> LexLe(s[k].name, x.name)
    ensures Insert(x, s) == s + [x]
  {
    if s != [] {
      InsertAtEnd(x, s[1..]);
      assert [s[0]] + (s[1..] + [x]) == s + [x];
    }
  }

  lemma {:induction false} SortByNameSortedIdentity(s: seq<Node>)
    requires SortedByName(s)
    ensures SortByName(s) == s
  {
    if s != [] {
      var init := s[..|s| - 1];
      assert SortedByName(init);
      SortByNameSortedIdentity(init);
      InsertAtEnd(s[|s| - 1], init);
      assert init + [s[|s| - 1]] == s;
    }
  }

  /** Sorting an already sorted tree gives it back. */
  lemma {:induction false} SortNodeSortedIdentity(n: Node)
    requires DeepSorted(n)
    ensures SortNode(n) == n
    decreases n
  {
    var each := SortEach(n.children);
    forall i | 0 <= i < |n.children|
      ensures each[i] == n.children[i]
    {
      SortNodeSortedIdentity(n.children[i]);
    }
    assert each == n.children;
    SortByNameSortedIdentity(n.children);
  }

  /** `Node::sort` is idempotent. */
  lemma SortNodeIdempotent(n: Node)
    ensures SortNode(SortNode(n)) == SortNode(n)
  {
    SortNodeSorts(n);
    SortNodeSortedIdentity(SortNode(n));
  }

  /** The roots after `Nodes::sort` are in name order, every tree is sorted,
      levels stay consistent, and sorting again changes nothing. */
  lemma SortForestSorts(f: seq<Node>)
    ensures SortedByName(SortForest(f))
    ensures forall i :: 0 <= i < |SortForest(f)| ==> DeepSorted(SortForest(f)[i])
    ensures SortForest(SortForest(f)) == SortForest(f)
  {
    var each := SortEach(f);
    var r := SortForest(f);
    SortByNameSorted(each);
    forall i | 0 <= i < |r|
      ensures DeepSorted(r[i])
    {
      assert r[i] in multiset(each);
      var k :| 0 <= k < |each| && each[k] == r[i];
      SortNodeSorts(f[k]);
    }
    var n := Node("", 0, NoValue, r);
    assert DeepSorted(n);
    SortNodeSortedIdentity(n);
  }

  /** Putting a node of a new name in front keeps names unique. */
  lemma PrependUnique(y: Node, g: seq<Node>)
    requires UniqueForest(g) && UniqueNames(y)
    requires forall j :: 0 <= j < |g| ==> g[j].name != y.name
    ensures UniqueForest([y] + g)
  {
  }

  /** Inserting a node of a new name keeps names unique. */
  lemma {:induction false} InsertUnique(x: Node, s: seq<Node>)
    requires UniqueForest(s) && UniqueNames(x)
    requires forall j :: 0 <= j < |s| ==> s[j].name != x.name
    ensures UniqueForest(Insert(x, s))
  {
    if s == [] || !LexLe(s[0].name, x.name) {
      PrependUnique(x, s);
    } else {
      var rest := s[1..];
      InsertUnique(x, rest);
      var g := Insert(x, rest);
      forall j | 0 <= j < |g|
        ensures g[j].name != s[0].name
      {
        assert g[j] in multiset(g);
        if g[j] != x {
          assert g[j] in multiset(rest);
          var k :| 0 <= k < |rest| && rest[k] == g[j];
          assert rest[k] == s[k + 1];
        }
      }
      PrependUnique(s[0], g);
    }
  }

  /** Sorting by name keeps names unique. */
  lemma {:induction false} SortByNameUnique(s: seq<Node>)
    requires UniqueForest(s)
    ensures UniqueForest(SortByName(s))
  {
    if s != [] {
      var init, last := s[..|s| - 1], s[|s| - 1];
      assert UniqueForest(init);
      SortByNameUnique(init);
      var g := SortByName(init);
      forall j | 0 <= j < |g|
        ensures g[j].name != last.name
      {
        assert g[j] in multiset(init);
        var k :| 0 <= k < |init| && init[k] == g[j];
        assert init[k] == s[k];
      }
      InsertUnique(last, g);
    }
  }

  /** `Node::sort` keeps sibling names unique at every depth. */
  lemma {:induction false} SortNodeUnique(n: Node)
    requires UniqueNames(n)
    ensures UniqueNames(SortNode(n))
    decreases n, 1
  {
    SortForestUnique(n.children);
  }

  /** `Nodes::sort` keeps root names distinct and sibling names unique. */
  lemma {:induction false} SortForestUnique(f: seq<Node>)
    requires UniqueForest(f)
    ensures UniqueForest(SortForest(f))
    decreases f, 0
  {
    var each := SortEach(f);
    forall i | 0 <= i < |each|
      ensures UniqueNames(each[i])
    {
      SortNodeUnique(f[i]);
    }
    SortByNameUnique(each);
  }
}
