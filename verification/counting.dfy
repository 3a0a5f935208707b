/** Counting true values in a sequence of booleans, and reordering a sequence by a
    permutation of its indices. The threshold rule of every counting gate is stated in
    terms of `Count`; completion order is modelled as a permutation of child indices. */
module Counting {

  /** Number of `true` entries of `bs`, counted left to right as the solver's
      `gotTrue++` does. */
  function Count(bs: seq<bool>): (c: nat)
    ensures c <= |bs|
  {
    if |bs| == 0 then 0
    else Count(bs[..|bs| - 1]) + (if bs[|bs| - 1] then 1 else 0)
  }

  predicate AllTrue(bs: seq<bool>) {
    forall j :: 0 <= j < |bs| ==> bs[j]
  }

  predicate AnyTrue(bs: seq<bool>) {
    exists j :: 0 <= j < |bs| && bs[j]
  }

  /** Counting distributes over concatenation: what is counted before a break plus what
      would have been counted after it. */
  lemma {:induction false} CountAppend(a: seq<bool>, b: seq<bool>)
    ensures Count(a + b) == Count(a) + Count(b)
    decreases |b|
  {
    if |b| == 0 {
      assert a + b == a;
    } else {
      var b' := b[..|b| - 1];
      CountAppend(a, b');
      assert (a + b)[..|a + b| - 1] == a + b';
    }
  }

  /** All entries are true exactly when every entry is counted. */
  lemma {:induction false} CountAllTrue(bs: seq<bool>)
    ensures Count(bs) == |bs| <==> AllTrue(bs)
    decreases |bs|
  {
    if |bs| > 0 {
      var init := bs[..|bs| - 1];
      CountAllTrue(init);
      if AllTrue(bs) {
        assert AllTrue(init) by {
          forall j | 0 <= j < |init| ensures init[j] {
            assert init[j] == bs[j];
          }
        }
      }
      if Count(bs) == |bs| {
        assert Count(init) == |init| && bs[|bs| - 1];
        forall j | 0 <= j < |bs| ensures bs[j] {
          if j < |bs| - 1 {
            assert bs[j] == init[j];
          }
        }
      }
    }
  }

  /** Some entry is true exactly when the count is positive. */
  lemma {:induction false} CountAnyTrue(bs: seq<bool>)
    ensures Count(bs) > 0 <==> AnyTrue(bs)
    decreases |bs|
  {
    if |bs| > 0 {
      var init := bs[..|bs| - 1];
      CountAnyTrue(init);
      if AnyTrue(init) {
        var j :| 0 <= j < |init| && init[j];
        assert bs[j];
      }
      if AnyTrue(bs) && !bs[|bs| - 1] {
        var j :| 0 <= j < |bs| && bs[j];
        assert init[j];
      }
    }
  }

  /** The count is the multiplicity of `true` in the multiset of entries, so it does not
      depend on their order. */
  lemma {:induction false} CountIsMultiplicity(bs: seq<bool>)
    ensures Count(bs) == multiset(bs)[true]
    decreases |bs|
  {
    if |bs| > 0 {
      var init := bs[..|bs| - 1];
      CountIsMultiplicity(init);
      assert bs == init + [bs[|bs| - 1]];
      assert multiset(bs) == multiset(init) + multiset{bs[|bs| - 1]};
    }
  }

  /** Whether the quantified facts `AllTrue`/`AnyTrue` hold is fixed by the count, for
      every sequence at once; this is the form the gate encodings use. */
  lemma CountDecidesAllAndAny()
    ensures forall bs: seq<bool> {:trigger Count(bs)} :: Count(bs) == |bs| <==> AllTrue(bs)
    ensures forall bs: seq<bool> {:trigger Count(bs)} :: Count(bs) > 0 <==> AnyTrue(bs)
  {
    forall bs: seq<bool> ensures Count(bs) == |bs| <==> AllTrue(bs) {
      CountAllTrue(bs);
    }
    forall bs: seq<bool> ensures Count(bs) > 0 <==> AnyTrue(bs) {
      CountAnyTrue(bs);
    }
  }

  /** The indices `0, 1, ..., n-1` in submission order. */
  function Range(n: nat): (r: seq<nat>)
    ensures |r| == n
    ensures forall j :: 0 <= j < n ==> r[j] == j
  {
    seq(n, j requires 0 <= j < n => j)
  }

  predicate InBounds(order: seq<nat>, n: nat) {
    forall j :: 0 <= j < |order| ==> order[j] < n
  }

  /** `order` lists every index below `n` exactly once: a completion order of `n`
      concurrently running children. */
  predicate IsPermutation(order: seq<nat>, n: nat) {
    && |order| == n
    && InBounds(order, n)
    && multiset(order) == multiset(Range(n))
  }

  /** The entries of `xs` in the order `order` names them (`xs[order[0]]` first). */
  function Reorder<T>(xs: seq<T>, order: seq<nat>): (ys: seq<T>)
    requires InBounds(order, |xs|)
    ensures |ys| == |order|
    ensures forall j :: 0 <= j < |order| ==> ys[j] == xs[order[j]]
  {
    seq(|order|, j requires 0 <= j < |order| => xs[order[j]])
  }

  lemma ReorderAppend<T>(xs: seq<T>, a: seq<nat>, b: seq<nat>)
    requires InBounds(a, |xs|) && InBounds(b, |xs|)
    ensures InBounds(a + b, |xs|)
    ensures Reorder(xs, a + b) == Reorder(xs, a) + Reorder(xs, b)
  {
    assert InBounds(a + b, |xs|) by {
      forall j | 0 <= j < |a + b| ensures (a + b)[j] < |xs| {
        if j >= |a| {
          assert (a + b)[j] == b[j - |a|];
        }
      }
    }
  }

  /** Removing one occurrence from a sequence removes it from its multiset. */
  lemma RemoveAt<T>(b: seq<T>, idx: nat)
    requires idx < |b|
    ensures multiset(b[..idx] + b[idx + 1..]) == multiset(b) - multiset{b[idx]}
  {
    assert b == b[..idx] + [b[idx]] + b[idx + 1..];
  }

  lemma InBoundsSlice(order: seq<nat>, n: nat, lo: nat, hi: nat)
    requires InBounds(order, n) && lo <= hi <= |order|
    ensures InBounds(order[lo..hi], n)
  {
    forall j | 0 <= j < hi - lo ensures order[lo..hi][j] < n {
      assert order[lo..hi][j] == order[lo + j];
    }
  }

  /** Picking through `pre`, then one index, then `post`. */
  lemma ReorderSplit<T>(xs: seq<T>, b: seq<nat>, idx: nat)
    requires InBounds(b, |xs|) && idx < |b|
    ensures InBounds(b[..idx], |xs|) && InBounds(b[idx + 1..], |xs|)
    ensures InBounds(b[..idx] + b[idx + 1..], |xs|)
    ensures Reorder(xs, b) == Reorder(xs, b[..idx]) + [xs[b[idx]]] + Reorder(xs, b[idx + 1..])
    ensures Reorder(xs, b[..idx] + b[idx + 1..]) == Reorder(xs, b[..idx]) + Reorder(xs, b[idx + 1..])
  {
    InBoundsSlice(b, |xs|, 0, idx);
    InBoundsSlice(b, |xs|, idx + 1, |b|);
    ReorderAppend(xs, b[..idx], b[idx + 1..]);
    var r := Reorder(xs, b[..idx]) + [xs[b[idx]]] + Reorder(xs, b[idx + 1..]);
    assert |Reorder(xs, b)| == |r|;
    forall j | 0 <= j < |b| ensures Reorder(xs, b)[j] == r[j] {
      if j > idx {
        assert b[idx + 1..][j - idx - 1] == b[j];
      }
    }
  }

  /** Taking one index out of an index list takes its entry out of the picked multiset. */
  lemma ReorderRemoveAt<T>(xs: seq<T>, b: seq<nat>, idx: nat, rest: seq<nat>)
    requires InBounds(b, |xs|) && idx < |b|
    requires rest == b[..idx] + b[idx + 1..]
    ensures InBounds(rest, |xs|)
    ensures multiset(Reorder(xs, b)) == multiset(Reorder(xs, rest)) + multiset{xs[b[idx]]}
  {
    ReorderSplit(xs, b, idx);
    var pre, post := Reorder(xs, b[..idx]), Reorder(xs, b[idx + 1..]);
    assert multiset(pre + [xs[b[idx]]] + post) == multiset(pre) + multiset{xs[b[idx]]} + multiset(post);
    assert multiset(pre + post) == multiset(pre) + multiset(post);
  }

  /** The first entry of `a` occurs in its permutation `b`; removing both occurrences
      leaves permutations of each other. */
  lemma MatchHead(a: seq<nat>, b: seq<nat>) returns (idx: nat)
    requires |a| > 0 && multiset(a) == multiset(b)
    ensures idx < |b| && b[idx] == a[0]
    ensures multiset(a[1..]) == multiset(b[..idx] + b[idx + 1..])
  {
    assert a == [a[0]] + a[1..];
    assert multiset(a[1..]) == multiset(a) - multiset{a[0]};
    assert a[0] in multiset(b);
    idx :| 0 <= idx < |b| && b[idx] == a[0];
    RemoveAt(b, idx);
  }

  /** Picking entries through two index lists that are permutations of each other yields
      permutations of each other. */
  lemma {:induction false} ReorderSameMultiset<T>(xs: seq<T>, a: seq<nat>, b: seq<nat>)
    requires InBounds(a, |xs|) && InBounds(b, |xs|)
    requires multiset(a) == multiset(b)
    ensures multiset(Reorder(xs, a)) == multiset(Reorder(xs, b))
    decreases |a|
  {
    if |a| == 0 {
      assert |b| == |multiset(b)| == 0;
    } else {
      var idx := MatchHead(a, b);
      var a', b' := a[1..], b[..idx] + b[idx + 1..];
      assert a' == a[..0] + a[1..];
      ReorderRemoveAt(xs, a, 0, a');
      ReorderRemoveAt(xs, b, idx, b');
      ReorderSameMultiset(xs, a', b');
    }
  }

  /** Reading the entries in any completion order yields the same multiset. */
  lemma ReorderPermutes<T>(xs: seq<T>, order: seq<nat>)
    requires IsPermutation(order, |xs|)
    ensures multiset(Reorder(xs, order)) == multiset(xs)
  {
    ReorderSameMultiset(xs, order, Range(|xs|));
    assert Reorder(xs, Range(|xs|)) == xs;
  }

  /** The number of true children does not depend on the order they complete in. */
  lemma CountReorder(bs: seq<bool>, order: seq<nat>)
    requires IsPermutation(order, |bs|)
    ensures Count(Reorder(bs, order)) == Count(bs)
  {
    ReorderPermutes(bs, order);
    CountIsMultiplicity(bs);
    CountIsMultiplicity(Reorder(bs, order));
  }
}
