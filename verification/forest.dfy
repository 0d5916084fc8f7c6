/** The forest of src/nodes.rs (`Nodes`): its roots in insertion order, and
    `merge`, which offers a new tree to every root in turn.  The counters
    and comment lists `Nodes` also carries feed only a log message and are
    not modelled. */
module Nodes {
  import opened Outcomes
  import opened NodeTypes
  import opened Tree
  import opened NodeSort

  /** Every root is at level 0 and every level below is consistent. */
  predicate Roots(f: seq<Node>) {
    forall i :: 0 <= i < |f| ==> f[i].level == 0 && LevelsOK(f[i])
  }

  /** `Nodes::push`. */
  function Push(f: seq<Node>, n: Node): seq<Node> {
    f + [n]
  }

  /** `Nodes::is_empty`. */
  predicate IsEmpty(f: seq<Node>) {
    |f| == 0
  }

  /** `Nodes::merge`: an empty forest takes the new tree as its first root;
      otherwise every root is asked in turn (`find_common_node`) until one
      absorbs the tree, and a tree no root absorbs becomes a new root. */
  function Merge(f: seq<Node>, inc: Node): (r: Result<seq<Node>, Panic>)
    ensures r.Ok? ==> !IsEmpty(r.value)
    ensures r.Ok? ==> |r.value| == |f| || r.value == Push(f, inc)
  {
    if IsEmpty(f) then Ok(Push(f, inc)) else MergeFrom(f, inc, 0)
  }

  /** The loop of `merge` from root `i` on.  Roots that answer "try the next
      one" are written back unchanged. */
  function MergeFrom(f: seq<Node>, inc: Node, i: nat): (r: Result<seq<Node>, Panic>)
    requires i <= |f|
    ensures r.Ok? ==> |r.value| == |f| || r.value == Push(f, inc)
    decreases |f| - i
  {
    if i == |f| then Ok(Push(f, inc))
    else
      var step :- FindCommonNode(f[i], inc);
      if !step.0 then Ok(f[i := step.1])
      else
        assert f[i := step.1] == f;
        MergeFrom(f[i := step.1], inc, i + 1)
  }

  /** The roots before the first one named like the new tree all decline it. */
  lemma {:induction false} MergeSkips(f: seq<Node>, inc: Node, i: nat)
    requires forall j :: 0 <= j < |f| ==> f[j].level == 0
    requires inc.level == 0 && i <= NameIndex(f, inc.name)
    ensures MergeFrom(f, inc, i) == MergeFrom(f, inc, NameIndex(f, inc.name))
    decreases |f| - i
  {
    if i < NameIndex(f, inc.name) {
      OtherRootUntouched(f[i], inc);
      assert f[i := f[i]] == f;
      MergeSkips(f, inc, i + 1);
    }
  }

  /** A tree whose root name is new is appended as a new root: `merge` then
      agrees with `push`. */
  lemma MergeNewName(f: seq<Node>, inc: Node)
    requires forall j :: 0 <= j < |f| ==> f[j].level == 0
    requires inc.level == 0 && NameIndex(f, inc.name) == |f|
    ensures Merge(f, inc) == Ok(Push(f, inc))
  {
    if f != [] {
      MergeSkips(f, inc, 0);
    }
  }

  /** Merging the chain built from one key: it panics exactly when the key's
      whole path is already in the forest; otherwise the key's paths are
      added, every lookup that succeeded before still gives the same value,
      and a new root appears only when no root has the chain's root name. */
  lemma MergeChain(f: seq<Node>, inc: Node)
    requires Roots(f)
    requires inc.level == 0 && LevelsOK(inc) && IsChain(inc)
    ensures var r := Merge(f, inc);
      && (r.Err? <==> Lookup(f, SpineNames(inc)).Some?)
      && (r.Ok? ==> Roots(r.value))
      && (r.Ok? ==> forall path :: Lookup(r.value, path) == Override(Lookup(f, path), Lookup([inc], path)))
      && (r.Ok? ==> |r.value| == if NameIndex(f, inc.name) < |f| then |f| else |f| + 1)
  {
    var k := NameIndex(f, inc.name);
    var r := Merge(f, inc);
    if k == |f| {
      MergeNewName(f, inc);
      forall path
        ensures Lookup(f + [inc], path) == Override(Lookup(f, path), Lookup([inc], path))
      {
        LookupAppend(f, inc, path);
      }
    } else {
      MergeSkips(f, inc, 0);
      var root := f[k];
      SameRootGraft(root, inc);
      var step := FindCommonNode(root, inc);
      assert r == (if step.Err? then Err(step.error) else Ok(f[k := step.value.1]));
      if step.Ok? {
        var t := step.value.1;
        forall path
          ensures Lookup(f[k := t], path) == Override(Lookup(f, path), Lookup([inc], path))
        {
          if path != [] {
            LookupChain(inc, path);
            if path[0] == inc.name {
              LookupUpdate(f, k, t, path);
              NameIndexUpdate([root], 0, t, path[0]);
              assert [root][0 := t] == [t];
            } else {
              LookupUpdateElsewhere(f, k, t, path);
            }
          }
        }
      }
    }
  }

  /** Merging a chain keeps root names pairwise distinct and sibling names
      unique at every depth: a root is added only under a new name, and
      otherwise the chain is grafted into the root of its name. */
  lemma MergeUnique(f: seq<Node>, inc: Node)
    requires Roots(f) && UniqueForest(f)
    requires inc.level == 0 && LevelsOK(inc) && IsChain(inc)
    ensures Merge(f, inc).Ok? ==> UniqueForest(Merge(f, inc).value)
  {
    var k := NameIndex(f, inc.name);
    if k == |f| {
      MergeNewName(f, inc);
      ChainUnique(inc);
      AppendUnique(f, inc);
    } else {
      MergeSkips(f, inc, 0);
      SameRootGraft(f[k], inc);
      SameRootUnique(f[k], inc);
      var step := FindCommonNode(f[k], inc);
      if step.Ok? {
        assert Merge(f, inc) == Ok(f[k := step.value.1]);
        UpdateUnique(f, k, step.value.1);
      }
    }
  }

  /** `Nodes::sort`: the sorted forest has as many roots, is still well
      formed, and answers every lookup as before. */
  lemma SortKeepsForest(f: seq<Node>)
    requires Roots(f)
    ensures |SortForest(f)| == |f|
    ensures Roots(SortForest(f))
    ensures forall path :: Lookup(SortForest(f), path) == Lookup(f, path)
    ensures UniqueForest(f) ==> UniqueForest(SortForest(f))
  {
    if UniqueForest(f) {
      SortForestUnique(f);
    }
    var each := SortEach(f);
    var r := SortForest(f);
    assert |r| == |multiset(r)| == |multiset(each)| == |each|;
    forall i | 0 <= i < |r|
      ensures r[i].level == 0 && LevelsOK(r[i])
    {
      assert r[i] in multiset(each);
      var k :| 0 <= k < |each| && each[k] == r[i];
      SortNodeSorts(f[k]);
    }
    forall path
      ensures Lookup(r, path) == Lookup(f, path)
    {
      SortForestLookup(f, path);
    }
  }
}
