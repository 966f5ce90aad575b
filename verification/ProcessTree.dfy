/** Finding the descendants of a process in a snapshot of parent links. */
module ProcessTree {
  type Pid = int

  type Parents = map<Pid, Pid>

  /** A path of parent links from a process up to the root, of some length. */
  ghost predicate Descends(parents: Parents, root: Pid, pid: Pid, steps: nat)
    decreases steps
  {
    if steps == 0 then pid == root
    else pid in parents && Descends(parents, root, parents[pid], steps - 1)
  }

  ghost predicate InTree(parents: Parents, root: Pid, pid: Pid) {
    exists steps: nat :: Descends(parents, root, pid, steps)
  }

  ghost predicate Closed(parents: Parents, tree: set<Pid>) {
    forall pid :: pid in parents && parents[pid] in tree ==> pid in tree
  }

  /** Everything in the tree is in every closed set that holds the root. */
  lemma {:induction false} ClosedHoldsTree(parents: Parents, root: Pid, tree: set<Pid>, pid: Pid, steps: nat)
    requires root in tree && Closed(parents, tree) && Descends(parents, root, pid, steps)
    ensures pid in tree
    decreases steps
  {
    if steps > 0 {
      ClosedHoldsTree(parents, root, tree, parents[pid], steps - 1);
    }
  }

  lemma ChildInTree(parents: Parents, root: Pid, pid: Pid)
    requires pid in parents && InTree(parents, root, parents[pid])
    ensures InTree(parents, root, pid)
  {
    var steps: nat :| Descends(parents, root, parents[pid], steps);
    assert Descends(parents, root, pid, steps + 1);
  }

  /** An order in which a table of links can be gone through. */
  predicate Visits(order: seq<Pid>, parents: Parents) {
    (forall k :: 0 <= k < |order| ==> order[k] in parents) && forall pid <- parents :: pid in order
  }

  /**
   The root and every process with a chain of parents to it, whatever the links are, even if they run
   in circles, and whatever the order in which the links are visited.
   */
  method Descendants(parents: Parents, order: seq<Pid>, root: Pid) returns (tree: set<Pid>)
    requires Visits(order, parents)
    ensures forall pid :: pid in tree <==> InTree(parents, root, pid)
  {
    tree := {root};
    assert Descends(parents, root, root, 0);
    var changed := true;
    ghost var all := {root} + parents.Keys;
    while changed
      invariant root in tree && tree <= all
      invariant forall pid :: pid in tree ==> InTree(parents, root, pid)
      invariant !changed ==> Closed(parents, tree)
      decreases |all| - |tree|, changed
    {
      var before := tree;
      tree := Pass(parents, order, root, before);
      SameSize(before, tree);
      SameSize(tree, all);
      changed := |tree| != |before|;
    }
    forall pid | InTree(parents, root, pid) ensures pid in tree {
      var steps: nat :| Descends(parents, root, pid, steps);
      ClosedHoldsTree(parents, root, tree, pid, steps);
    }
  }

  /** One pass over the links adds the processes whose parent is already in the set. */
  method Pass(parents: Parents, order: seq<Pid>, ghost root: Pid, start: set<Pid>) returns (tree: set<Pid>)
    requires Visits(order, parents)
    requires forall pid :: pid in start ==> InTree(parents, root, pid)
    ensures start <= tree <= start + parents.Keys
    ensures forall pid :: pid in tree ==> InTree(parents, root, pid)
    ensures tree == start ==> Closed(parents, start)
  {
    tree := start;
    for i := 0 to |order|
      invariant start <= tree <= start + parents.Keys
      invariant forall pid :: pid in tree ==> InTree(parents, root, pid)
      invariant forall k :: 0 <= k < i && parents[order[k]] in start ==> order[k] in tree
    {
      var candidate := order[i];
      if parents[candidate] in tree {
        ChildInTree(parents, root, candidate);
        tree := tree + {candidate};
      }
    }
  }

  lemma SameSize(small: set<Pid>, large: set<Pid>)
    requires small <= large
    ensures |small| <= |large|
    ensures |small| == |large| ==> small == large
  {
    var more := large - small;
    assert large == small + more;
    assert |large| == |small| + |more|;
  }
}
