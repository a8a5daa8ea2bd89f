/** The hits of a leaf or tree depend only on which entries it holds, not on their order. */
module HitPermutation {
  import opened Metrics
  import opened KdTree
  import opened QueryContext
  import opened Search

  lemma SameRest(a: multiset<Entry>, b: multiset<Entry>, x: Entry)
    requires a + multiset{x} == b + multiset{x}
    ensures a == b
  {
    assert a == a + multiset{x} - multiset{x};
  }

  lemma WithoutOne(s: seq<Entry>, i: nat)
    requires i < |s|
    ensures s == s[..i] + [s[i]] + s[i + 1..]
    ensures multiset(s[..i] + s[i + 1..]) + multiset{s[i]} == multiset(s)
  {
    var low, high := s[..i], s[i + 1..];
    assert s == low + [s[i]] + high;
  }

  lemma HitsWithout(m: Metric, q: seq<real>, low: seq<Entry>, x: Entry, high: seq<Entry>)
    requires Fits(low + [x] + high, |q|)
    ensures Fits(low, |q|) && Fits(high, |q|) && Fits(low + high, |q|) && Fits(low + [x], |q|)
    ensures multiset(Hits(m, q, low + [x] + high)) == multiset(Hits(m, q, low + high)) + multiset{HitOf(m, q, x)}
  {
    var all := low + [x] + high;
    assert x in all && (forall e :: e in low || e in high ==> e in all);
    HitsOfBoth(m, q, low, high);
    HitsOfBoth(m, q, low, [x]);
    HitsOfBoth(m, q, low + [x], high);
    assert Hits(m, q, [x]) == [HitOf(m, q, x)];
  }

  lemma Extract(m: Metric, q: seq<real>, s: seq<Entry>, x: Entry) returns (rest: seq<Entry>)
    requires x in s && Fits(s, |q|)
    ensures multiset(rest) + multiset{x} == multiset(s) && Fits(rest, |q|) && |x.point| == |q|
    ensures multiset(Hits(m, q, s)) == multiset(Hits(m, q, rest)) + multiset{HitOf(m, q, x)}
  {
    var i :| 0 <= i < |s| && s[i] == x;
    WithoutOne(s, i);
    HitsWithout(m, q, s[..i], x, s[i + 1..]);
    rest := s[..i] + s[i + 1..];
  }

  /** Rearranging the entries rearranges the hits. */
  lemma {:induction false} HitsOfPermutation(m: Metric, q: seq<real>, a: seq<Entry>, b: seq<Entry>)
    requires multiset(a) == multiset(b) && Fits(a, |q|) && Fits(b, |q|)
    ensures multiset(Hits(m, q, a)) == multiset(Hits(m, q, b))
  {
    if a == [] {
      assert |multiset(b)| == 0;
    } else {
      var front, last := a[..|a| - 1], a[|a| - 1];
      assert a == front + [last] + [] && front + [] == front;
      assert last in multiset(a) && last in b;
      HitsWithout(m, q, front, last, []);
      var rest := Extract(m, q, b, last);
      SameRest(multiset(front), multiset(rest), last);
      HitsOfPermutation(m, q, front, rest);
    }
  }
}
