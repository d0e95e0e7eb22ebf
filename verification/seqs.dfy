/** Generic sequence and set helpers: filtering, bounded prefixes, first-match
    search and the enumeration of a set in an unspecified order. */
module Seqs {
  import opened Wrappers

  /** The elements of `xs` satisfying `p`, in their original order. */
  function Filter<T(==,!new)>(xs: seq<T>, p: T -> bool): (r: seq<T>)
    ensures |r| <= |xs|
    ensures forall k :: 0 <= k < |r| ==> p(r[k])
    ensures forall x :: x in r <==> x in xs && p(x)
  {
    if |xs| == 0 then []
    else if p(xs[0]) then [xs[0]] + Filter(xs[1..], p)
    else Filter(xs[1..], p)
  }

  /** Filtering a concatenation filters each part. */
  lemma {:induction false} FilterAppend<T(!new)>(a: seq<T>, b: seq<T>, p: T -> bool)
    ensures Filter(a + b, p) == Filter(a, p) + Filter(b, p)
    decreases |a|
  {
    if |a| > 0 {
      FilterAppend(a[1..], b, p);
      assert (a + b)[1..] == a[1..] + b;
    } else {
      assert a + b == b;
    }
  }

  /** Python's `xs[:n]`. */
  function Take<T>(xs: seq<T>, n: nat): (r: seq<T>)
    ensures |r| == if |xs| < n then |xs| else n
    ensures r == xs[..|r|]
  {
    if |xs| <= n then xs else xs[..n]
  }

  /** The image of `xs` under `f`, position by position. */
  function Map<T, U>(f: T -> U, xs: seq<T>): (r: seq<U>)
    ensures |r| == |xs|
    ensures forall k :: 0 <= k < |xs| ==> r[k] == f(xs[k])
  {
    seq(|xs|, k requires 0 <= k < |xs| => f(xs[k]))
  }

  /** Flattens a sequence of sequences, keeping the outer order. */
  function Concat<T(==,!new)>(xss: seq<seq<T>>): (r: seq<T>)
    ensures forall x :: x in r <==> exists k :: 0 <= k < |xss| && x in xss[k]
  {
    if |xss| == 0 then [] else xss[0] + Concat(xss[1..])
  }

  /** How many of the first `i` elements of `xs` satisfy `p`. */
  function CountWhere<T>(xs: seq<T>, p: T -> bool, i: nat): nat
    requires i <= |xs|
  {
    if i == 0 then 0 else CountWhere(xs, p, i - 1) + (if p(xs[i - 1]) then 1 else 0)
  }

  /** Counting over `xs` is counting its head and then over its tail. */
  lemma {:induction false} CountWhereTail<T>(xs: seq<T>, p: T -> bool, i: nat)
    requires i < |xs|
    ensures CountWhere(xs, p, i + 1) == (if p(xs[0]) then 1 else 0) + CountWhere(xs[1..], p, i)
    decreases i
  {
    if i > 0 {
      CountWhereTail(xs, p, i - 1);
      assert xs[1..][i - 1] == xs[i];
    }
  }

  /** A passing element at position `i` makes the count grow past `i`. */
  lemma {:induction false} CountWhereGrows<T>(xs: seq<T>, p: T -> bool, i: nat, j: nat)
    requires i < j <= |xs| && p(xs[i])
    ensures CountWhere(xs, p, i) < CountWhere(xs, p, j)
    decreases j
  {
    if j > i + 1 {
      CountWhereGrows(xs, p, i, j - 1);
    }
  }

  /** `Filter` keeps every passing element exactly once and in order: the
      passing element at position `i` is entry number `CountWhere(xs, p, i)`
      of the result, and there are no other entries. */
  lemma {:induction false} FilterPositions<T(!new)>(xs: seq<T>, p: T -> bool)
    ensures |Filter(xs, p)| == CountWhere(xs, p, |xs|)
    ensures forall i :: 0 <= i < |xs| && p(xs[i]) ==>
      CountWhere(xs, p, i) < |Filter(xs, p)| && Filter(xs, p)[CountWhere(xs, p, i)] == xs[i]
    decreases |xs|
  {
    if |xs| > 0 {
      var tail := xs[1..];
      FilterPositions(tail, p);
      CountWhereTail(xs, p, |xs| - 1);
      forall i | 0 <= i < |xs| && p(xs[i])
        ensures CountWhere(xs, p, i) < |Filter(xs, p)| && Filter(xs, p)[CountWhere(xs, p, i)] == xs[i]
      {
        if i > 0 {
          CountWhereTail(xs, p, i - 1);
          assert tail[i - 1] == xs[i];
        }
      }
    }
  }

  /** Where block `s` starts in `Concat(xss)`: the total length of the blocks
      before it. */
  function BlockStart<T>(xss: seq<seq<T>>, s: nat): nat
    requires s <= |xss|
  {
    if s == 0 then 0 else BlockStart(xss, s - 1) + |xss[s - 1]|
  }

  lemma {:induction false} ConcatAppend<T(!new)>(a: seq<seq<T>>, b: seq<seq<T>>)
    ensures Concat(a + b) == Concat(a) + Concat(b)
    decreases |a|
  {
    if |a| > 0 {
      ConcatAppend(a[1..], b);
      assert (a + b)[1..] == a[1..] + b;
    } else {
      assert a + b == b;
    }
  }

  lemma {:induction false} ConcatPrefixLength<T(!new)>(xss: seq<seq<T>>, s: nat)
    requires s <= |xss|
    ensures |Concat(xss[..s])| == BlockStart(xss, s)
    decreases s
  {
    if s > 0 {
      ConcatPrefixLength(xss, s - 1);
      assert xss[..s] == xss[..s - 1] + [xss[s - 1]];
      ConcatAppend(xss[..s - 1], [xss[s - 1]]);
      assert Concat([xss[s - 1]]) == xss[s - 1] + Concat([]);
    }
  }

  /** `Concat` lays the blocks end to end in order: block `s` occupies
      exactly `[BlockStart(xss, s), BlockStart(xss, s + 1))`, and nothing
      follows the last block. */
  lemma ConcatBlocks<T(!new)>(xss: seq<seq<T>>, s: nat)
    requires s < |xss|
    ensures BlockStart(xss, s + 1) <= BlockStart(xss, |xss|) == |Concat(xss)|
    ensures Concat(xss)[BlockStart(xss, s)..BlockStart(xss, s + 1)] == xss[s]
  {
    ConcatPrefixLength(xss, s);
    ConcatPrefixLength(xss, s + 1);
    ConcatPrefixLength(xss, |xss|);
    assert xss[..|xss|] == xss;
    assert xss == xss[..s + 1] + xss[s + 1..];
    ConcatAppend(xss[..s + 1], xss[s + 1..]);
    assert xss[..s + 1] == xss[..s] + [xss[s]];
    ConcatAppend(xss[..s], [xss[s]]);
    assert Concat([xss[s]]) == xss[s] + Concat([]);
  }

  /** The first index in `[i, n)` at which `f` yields a value, together with
      that value: a left-to-right search that stops at its first hit. */
  function FirstSome<T>(f: nat -> Option<T>, i: nat, n: nat): (r: Option<T>)
    decreases n - i
    ensures r.None? <==> forall j :: i <= j < n ==> f(j).None?
    ensures r.Some? ==> exists j :: i <= j < n && f(j) == r && forall k :: i <= k < j ==> f(k).None?
  {
    if i >= n then None
    else if f(i).Some? then f(i)
    else FirstSome(f, i + 1, n)
  }

  /** Index of the first element satisfying `p`, if any. */
  function FirstIndex<T>(xs: seq<T>, p: T -> bool): (r: Option<nat>)
    ensures r.None? <==> forall k :: 0 <= k < |xs| ==> !p(xs[k])
    ensures r.Some? ==> r.value < |xs| && p(xs[r.value]) && forall k :: 0 <= k < r.value ==> !p(xs[k])
  {
    if |xs| == 0 then None
    else if p(xs[0]) then Some(0)
    else match FirstIndex(xs[1..], p)
      case None => None
      case Some(k) => Some(k + 1)
  }

  /** The first element satisfying `p`, if any. */
  function FirstWhere<T>(xs: seq<T>, p: T -> bool): (r: Option<T>)
    ensures r.None? <==> forall k :: 0 <= k < |xs| ==> !p(xs[k])
    ensures r.Some? ==> exists k :: 0 <= k < |xs| && xs[k] == r.value && p(xs[k]) && forall j :: 0 <= j < k ==> !p(xs[j])
  {
    match FirstIndex(xs, p)
    case None => None
    case Some(k) => Some(xs[k])
  }

  /** No element occurs twice. */
  predicate Distinct<T(==)>(xs: seq<T>) {
    forall a, b :: 0 <= a < b < |xs| ==> xs[a] != xs[b]
  }

  /** A listing of `s` in an order that is unspecified but fixed for each set
      value, the way a Python set is iterated. */
  ghost function Enumerate<T(!new)>(s: set<T>): (r: seq<T>)
    ensures |r| == |s|
    ensures forall x :: x in r <==> x in s
    ensures Distinct(r)
    decreases |s|
  {
    if s == {} then []
    else
      var x :| x in s;
      [x] + Enumerate(s - {x})
  }
}
