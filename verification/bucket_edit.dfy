/** Removing and relabelling entries of a bucket (src/leaf_strategy/vec_of_arrays.rs,
    `remove_from_leaf`, `replace_item_in_leaf`). */
module BucketEdit {
  import opened KdTree

  function Without(s: seq<Entry>, e: Entry): seq<Entry> {
    if s == [] then []
    else Without(s[..|s| - 1], e) + if s[|s| - 1] == e then [] else [s[|s| - 1]]
  }

  /** Every copy is gone, everything else keeps its multiplicity. */
  lemma {:induction false} WithoutContents(s: seq<Entry>, e: Entry)
    ensures multiset(Without(s, e)) == multiset(s)[e := 0]
    ensures |Without(s, e)| + multiset(s)[e] == |s|
    ensures forall x :: x in Without(s, e) ==> x in s
  {
    if s != [] {
      var front, last := s[..|s| - 1], s[|s| - 1];
      assert s == front + [last];
      WithoutContents(front, e);
    }
  }

  /** `remove_from_leaf`: kept entries are copied down over removed ones. */
  method RemoveAll(leaf: Leaf, e: Entry) returns (r: Leaf)
    ensures r == Without(leaf, e)
  {
    r := leaf;
    var newSize := 0;
    for i := 0 to |leaf|
      invariant newSize <= i && |r| == |leaf| && r[..newSize] == Without(leaf[..i], e)
      invariant r[i..] == leaf[i..]
    {
      assert r[i] == r[i..][0] == leaf[i];
      assert leaf[..i + 1][..i] == leaf[..i];
      if r[i] != e {
        if newSize != i {
          r := r[newSize := r[i]];
        }
        newSize := newSize + 1;
      }
    }
    r := r[..newSize];
    assert leaf[..|leaf|] == leaf;
  }

  /** The first copy of `e`, or the length. */
  function FirstCopy(s: seq<Entry>, e: Entry): (i: nat)
    ensures i <= |s| && (i < |s| ==> s[i] == e) && forall j :: 0 <= j < i ==> s[j] != e
  {
    if s == [] then 0 else if s[0] == e then 0 else 1 + FirstCopy(s[1..], e)
  }

  /** `replace_item_in_leaf`. */
  method ReplaceItem(leaf: Leaf, point: seq<real>, oldItem: nat, newItem: nat) returns (r: Leaf, found: bool)
    ensures var i := FirstCopy(leaf, Entry(point, oldItem));
            && found == (i < |leaf|)
            && r == if found then leaf[i := Entry(point, newItem)] else leaf
  {
    for i := 0 to |leaf|
      invariant forall j :: 0 <= j < i ==> leaf[j] != Entry(point, oldItem)
    {
      if leaf[i].point == point && leaf[i].item == oldItem {
        return leaf[i := Entry(point, newItem)], true;
      }
    }
    return leaf, false;
  }
}
