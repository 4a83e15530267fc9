/** Sequence helpers shared by the module model: the `erase_if` filter the
    module applies to its vectors, concatenation of slices, and the cutting
    of a long operand list into fixed-size slices. */
module Sequences {

  /** The elements of `s` that `keep` accepts, in their original order. */
  function Filter<T(!new)>(s: seq<T>, keep: T -> bool): (r: seq<T>)
    ensures |r| <= |s|
    ensures forall x :: x in r <==> x in s && keep(x)
  {
    if s == [] then []
    else (if keep(s[0]) then [s[0]] else []) + Filter(s[1..], keep)
  }

  lemma {:induction false} FilterAppend<T(!new)>(a: seq<T>, b: seq<T>, keep: T -> bool)
    ensures Filter(a + b, keep) == Filter(a, keep) + Filter(b, keep)
  {
    if a != [] {
      assert (a + b)[1..] == a[1..] + b;
      FilterAppend(a[1..], b, keep);
    } else {
      assert a + b == b;
    }
  }

  /** A filter and its complement split the sequence: nothing is lost or
      duplicated. */
  lemma {:induction false} FilterPartition<T(!new)>(s: seq<T>, keep: T -> bool, drop: T -> bool)
    requires forall x :: drop(x) == !keep(x)
    ensures multiset(Filter(s, keep)) + multiset(Filter(s, drop)) == multiset(s)
  {
    if s != [] {
      var h, t := s[0], s[1..];
      FilterPartition(t, keep, drop);
      assert s == [h] + t;
      PartitionStep(h, t, Filter(t, keep), Filter(t, drop), Filter(s, keep), Filter(s, drop));
    }
  }

  /** Adding an element to one side of a split of `t` splits `[h] + t`. */
  lemma PartitionStep<T>(h: T, t: seq<T>, kt: seq<T>, dt: seq<T>, ks: seq<T>, ds: seq<T>)
    requires multiset(kt) + multiset(dt) == multiset(t)
    requires (ks == [h] + kt && ds == dt) || (ks == kt && ds == [h] + dt)
    ensures multiset(ks) + multiset(ds) == multiset([h] + t)
  {
  }

  /** The prefix one longer is the prefix and the next element. */
  lemma TakeOneMore<T>(s: seq<T>, i: nat)
    requires i < |s|
    ensures s[..i + 1] == s[..i] + [s[i]]
  {
  }

  /** Every element satisfies `p`, stated one appended element at a time. */
  predicate All<T>(s: seq<T>, p: T -> bool)
    decreases |s|
  {
    s == [] || (All(s[..|s| - 1], p) && p(s[|s| - 1]))
  }

  lemma {:induction false} AllEach<T>(s: seq<T>, p: T -> bool, k: nat)
    requires All(s, p) && k < |s|
    ensures p(s[k])
    decreases |s|
  {
    var init := s[..|s| - 1];
    if k < |init| {
      AllEach(init, p, k);
      assert init[k] == s[k];
    }
  }

  /** No element occurs twice. */
  predicate NoDuplicates<T(==)>(s: seq<T>) {
    forall i, j :: 0 <= i < j < |s| ==> s[i] != s[j]
  }

  /** No element occurs twice, stated one appended element at a time. */
  predicate Distinct<T(==)>(s: seq<T>)
    decreases |s|
  {
    s == [] || (Distinct(s[..|s| - 1]) && s[|s| - 1] !in s[..|s| - 1])
  }

  lemma {:induction false} DistinctHasNoDuplicates<T>(s: seq<T>)
    requires Distinct(s)
    ensures NoDuplicates(s)
    decreases |s|
  {
    if s != [] {
      var init := s[..|s| - 1];
      DistinctHasNoDuplicates(init);
      forall i, j | 0 <= i < j < |s|
        ensures s[i] != s[j]
      {
        if j == |s| - 1 {
          assert s[i] == init[i];
        } else {
          assert s[i] == init[i] && s[j] == init[j];
        }
      }
    }
  }

  /** Concatenation of a sequence of slices. */
  function Flatten<T>(ss: seq<seq<T>>): (r: seq<T>)
  {
    if ss == [] then [] else ss[0] + Flatten(ss[1..])
  }

  /** `s` cut into slices of `n` elements; the last slice holds the rest. */
  function Chunks<T>(s: seq<T>, n: nat): (r: seq<seq<T>>)
    requires n > 0
    ensures |r| > 0
    decreases |s|
  {
    if |s| <= n then [s] else [s[..n]] + Chunks(s[n..], n)
  }

  /** The slices give back the input in order; each non-empty input slice
      holds at most `n` elements and only the last may hold fewer. */
  lemma {:induction false} ChunksProperties<T>(s: seq<T>, n: nat)
    requires n > 0 && s != []
    ensures Flatten(Chunks(s, n)) == s
    ensures forall k :: 0 <= k < |Chunks(s, n)| ==> 0 < |Chunks(s, n)[k]| <= n
    ensures forall k :: 0 <= k < |Chunks(s, n)| - 1 ==> |Chunks(s, n)[k]| == n
    decreases |s|
  {
    if |s| > n {
      var rest := Chunks(s[n..], n);
      ChunksProperties(s[n..], n);
      assert Chunks(s, n) == [s[..n]] + rest;
      assert Chunks(s, n)[1..] == rest;
      assert s[..n] + s[n..] == s;
      forall k | 0 <= k < |Chunks(s, n)|
        ensures 0 < |Chunks(s, n)[k]| <= n
        ensures k < |Chunks(s, n)| - 1 ==> |Chunks(s, n)[k]| == n
      {
        if k > 0 {
          assert Chunks(s, n)[k] == rest[k - 1];
        }
      }
    }
  }

  lemma {:induction false} FlattenAppend<T>(a: seq<seq<T>>, b: seq<seq<T>>)
    ensures Flatten(a + b) == Flatten(a) + Flatten(b)
  {
    if a != [] {
      assert (a + b)[1..] == a[1..] + b;
      FlattenAppend(a[1..], b);
    } else {
      assert a + b == b;
    }
  }
}
