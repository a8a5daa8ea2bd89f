/** Iterating over the leaves of a mutable tree (src/kd_tree/iter.rs). */
module Iteration {
  import opened KdTree
  import opened Eytzinger
  import opened MappedQuery
  import opened MutableShape
  import opened MutableConstruction

  /** The entries of the listed leaves with index below `m`. */
  ghost function Gathered(leaves: seq<Leaf>, tips: set<nat>, m: nat): multiset<Entry>
    requires m <= |leaves|
  {
    if m == 0 then multiset{}
    else Gathered(leaves, tips, m - 1) + if m - 1 in tips then multiset(leaves[m - 1]) else multiset{}
  }

  lemma {:induction false} GatheredUnion(leaves: seq<Leaf>, a: set<nat>, b: set<nat>, m: nat)
    requires m <= |leaves| && a !! b
    ensures Gathered(leaves, a + b, m) == Gathered(leaves, a, m) + Gathered(leaves, b, m)
  {
    if m > 0 {
      GatheredUnion(leaves, a, b, m - 1);
    }
  }

  lemma {:induction false} GatheredOne(leaves: seq<Leaf>, i: nat, m: nat)
    requires i < |leaves| && m <= |leaves|
    ensures Gathered(leaves, {i}, m) == if i < m then multiset(leaves[i]) else multiset{}
  {
    if m > 0 {
      GatheredOne(leaves, i, m - 1);
    }
  }

  lemma {:induction false} EntriesAreGathered(n: Node, leaves: seq<Leaf>)
    requires Distinct(n) && forall i :: i in TipSet(n) ==> i < |leaves|
    ensures multiset(Entries(n, leaves)) == Gathered(leaves, TipSet(n), |leaves|)
  {
    match n
    case Tip(i) =>
      assert i in TipSet(n);
      GatheredOne(leaves, i, |leaves|);
    case Stem(_, l, r) =>
      assert forall i :: i in TipSet(l) || i in TipSet(r) ==> i in TipSet(n);
      EntriesAreGathered(l, leaves);
      EntriesAreGathered(r, leaves);
      GatheredUnion(leaves, TipSet(l), TipSet(r), |leaves|);
  }

  lemma {:induction false} AllGathered(leaves: seq<Leaf>, tips: set<nat>, m: nat)
    requires m <= |leaves| && forall i :: 0 <= i < |leaves| ==> i in tips
    ensures Gathered(leaves, tips, m) == multiset(Concat(leaves[..m]))
  {
    if m > 0 {
      AllGathered(leaves, tips, m - 1);
      assert leaves[..m][..m - 1] == leaves[..m - 1];
    }
  }

  /** Iterating over the leaves in storage order yields every stored entry exactly once. */
  lemma IterationIsComplete(t: Tree, b: nat)
    requires WellFormed(t, b)
    ensures multiset(Concat(t.leaves)) == multiset(t.Contents())
  {
    TipsInBounds(t, ROOT);
    EntriesAreGathered(t.Shape(), t.leaves);
    AllGathered(t.leaves, TipSet(t.Shape()), |t.leaves|);
    assert t.leaves[..|t.leaves|] == t.leaves;
  }

  lemma {:induction false} LeafIsPart(n: Node, leaves: seq<Leaf>, i: nat)
    requires i in TipSet(n) && i < |leaves|
    ensures multiset(leaves[i]) <= multiset(Entries(n, leaves))
  {
    if n.Stem? {
      if i in TipSet(n.left) {
        LeafIsPart(n.left, leaves, i);
      } else {
        LeafIsPart(n.right, leaves, i);
      }
    }
  }

  lemma {:induction false} StoredInTip(n: Node, leaves: seq<Leaf>, e: Entry) returns (i: nat)
    requires e in Entries(n, leaves)
    ensures i in TipSet(n) && i < |leaves| && e in leaves[i]
  {
    match n
    case Tip(l) => i := l;
    case Stem(_, l, r) =>
      if e in Entries(l, leaves) {
        i := StoredInTip(l, leaves, e);
      } else {
        i := StoredInTip(r, leaves, e);
      }
  }

  lemma InTipIsStored(n: Node, leaves: seq<Leaf>, i: nat, e: Entry)
    requires i in TipSet(n) && i < |leaves| && e in leaves[i]
    ensures e in Entries(n, leaves)
  {
    LeafIsPart(n, leaves, i);
    assert e in multiset(leaves[i]);
    assert e in multiset(Entries(n, leaves));
  }

  // ---------------------------------------------------------------- where the copies are

  /** If only leaf `j` holds the entry, it holds every copy. */
  lemma {:induction false} AllCopiesIn(leaves: seq<Leaf>, j: nat, e: Entry)
    requires forall i :: 0 <= i < |leaves| && i != j ==> e !in leaves[i]
    ensures multiset(Concat(leaves))[e] == if j < |leaves| then multiset(leaves[j])[e] else 0
  {
    if leaves != [] {
      var n := |leaves| - 1;
      AllCopiesIn(leaves[..n], j, e);
      assert n != j ==> e !in multiset(leaves[n]);
    }
  }

  /** A second leaf with the entry makes for more copies. */
  lemma {:induction false} MoreCopiesThan(leaves: seq<Leaf>, i: nat, j: nat, e: Entry)
    requires i < |leaves| && j < |leaves| && i != j
    ensures multiset(leaves[i])[e] + multiset(leaves[j])[e] <= multiset(Concat(leaves))[e]
  {
    var n := |leaves| - 1;
    assert multiset(Concat(leaves))[e] == multiset(Concat(leaves[..n]))[e] + multiset(leaves[n])[e];
    if i < n && j < n {
      MoreCopiesThan(leaves[..n], i, j, e);
    } else if i < n {
      CopiesOfLeaf(leaves[..n], i, e);
    } else {
      CopiesOfLeaf(leaves[..n], j, e);
    }
  }

  lemma {:induction false} CopiesOfLeaf(leaves: seq<Leaf>, i: nat, e: Entry)
    requires i < |leaves|
    ensures multiset(leaves[i])[e] <= multiset(Concat(leaves))[e]
  {
    var n := |leaves| - 1;
    if i < n {
      CopiesOfLeaf(leaves[..n], i, e);
    }
  }
}
