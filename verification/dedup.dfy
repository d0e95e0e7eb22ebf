/** The "first of each text" scan used twice by the analyser (revealed elements
    and modal buttons): walk a list, keep an item when its key passes a test and
    has not been kept before, and remember the keys kept so far. */
module Dedup {

  /** The scan from position `i` on, `seen` holding the keys kept before `i`. */
  function FirstsFrom<T, K(==)>(xs: seq<T>, key: T -> K, keep: K -> bool, i: nat, seen: set<K>): seq<T>
    requires i <= |xs|
    decreases |xs| - i
  {
    if i == |xs| then []
    else if keep(key(xs[i])) && key(xs[i]) !in seen then
      [xs[i]] + FirstsFrom(xs, key, keep, i + 1, seen + {key(xs[i])})
    else
      FirstsFrom(xs, key, keep, i + 1, seen)
  }

  /** The whole scan, starting with nothing seen. */
  function Firsts<T, K(==)>(xs: seq<T>, key: T -> K, keep: K -> bool): seq<T> {
    FirstsFrom(xs, key, keep, 0, {})
  }

  /** Position `i` holds the first item with its key, and that key passes. */
  ghost predicate IsFirstKept<T, K>(xs: seq<T>, key: T -> K, keep: K -> bool, i: nat)
    requires i < |xs|
  {
    keep(key(xs[i])) && forall j :: 0 <= j < i ==> key(xs[j]) != key(xs[i])
  }

  /** Reference definition without a memory: the items at the positions that
      hold the first occurrence of a passing key, in list order. */
  ghost function FirstsRef<T, K>(xs: seq<T>, key: T -> K, keep: K -> bool, i: nat): seq<T>
    requires i <= |xs|
    decreases |xs| - i
  {
    if i == |xs| then []
    else (if IsFirstKept(xs, key, keep, i) then [xs[i]] else []) + FirstsRef(xs, key, keep, i + 1)
  }

  /** Every item the reference definition lists sits, at or after `i`, at a
      position holding the first occurrence of a passing key. */
  lemma {:induction false} RefSound<T, K>(xs: seq<T>, key: T -> K, keep: K -> bool, i: nat)
    requires i <= |xs|
    ensures forall k :: 0 <= k < |FirstsRef(xs, key, keep, i)| ==>
              exists j :: i <= j < |xs| && FirstsRef(xs, key, keep, i)[k] == xs[j] && IsFirstKept(xs, key, keep, j)
    decreases |xs| - i
  {
    if i < |xs| {
      RefSound(xs, key, keep, i + 1);
      var rest := FirstsRef(xs, key, keep, i + 1);
      var head := if IsFirstKept(xs, key, keep, i) then [xs[i]] else [];
      var r := head + rest;
      assert r == FirstsRef(xs, key, keep, i);
      forall k | 0 <= k < |r|
        ensures exists j :: i <= j < |xs| && r[k] == xs[j] && IsFirstKept(xs, key, keep, j)
      {
        if k < |head| {
          assert r[k] == xs[i];
        } else {
          assert r[k] == rest[k - |head|];
          var j :| i + 1 <= j < |xs| && rest[k - |head|] == xs[j] && IsFirstKept(xs, key, keep, j);
        }
      }
    } else {
      assert FirstsRef(xs, key, keep, i) == [];
    }
  }

  /** The passing keys among the first `i` items. */
  ghost function KeptKeys<T, K>(xs: seq<T>, key: T -> K, keep: K -> bool, i: nat): set<K>
    requires i <= |xs|
  {
    set j | 0 <= j < i && keep(key(xs[j])) :: key(xs[j])
  }

  /** The scan with a memory of kept keys agrees with the reference definition. */
  lemma {:induction false} FirstsFromIsRef<T, K>(xs: seq<T>, key: T -> K, keep: K -> bool, i: nat, seen: set<K>)
    requires i <= |xs|
    requires seen == KeptKeys(xs, key, keep, i)
    ensures FirstsFrom(xs, key, keep, i, seen) == FirstsRef(xs, key, keep, i)
    decreases |xs| - i
  {
    if i < |xs| {
      var t := key(xs[i]);
      if keep(t) && t !in seen {
        forall j | 0 <= j < i
          ensures key(xs[j]) != t
        {
          if keep(key(xs[j])) {
            assert key(xs[j]) in KeptKeys(xs, key, keep, i);
          }
        }
        assert KeptKeys(xs, key, keep, i + 1) == seen + {t};
        FirstsFromIsRef(xs, key, keep, i + 1, seen + {t});
      } else if keep(t) {
        var j :| 0 <= j < i && keep(key(xs[j])) && key(xs[j]) == t;
        assert !IsFirstKept(xs, key, keep, i);
        assert KeptKeys(xs, key, keep, i + 1) == seen;
        FirstsFromIsRef(xs, key, keep, i + 1, seen);
      } else {
        assert KeptKeys(xs, key, keep, i + 1) == seen;
        FirstsFromIsRef(xs, key, keep, i + 1, seen);
      }
    }
  }

  /** `Firsts` keeps exactly the first occurrence of each passing key, in order. */
  lemma FirstsIsRef<T, K>(xs: seq<T>, key: T -> K, keep: K -> bool)
    ensures Firsts(xs, key, keep) == FirstsRef(xs, key, keep, 0)
  {
    assert KeptKeys(xs, key, keep, 0) == {};
    FirstsFromIsRef(xs, key, keep, 0, {});
  }

  /** The first occurrence of a passing key at or after `i` is kept. */
  lemma {:induction false} FirstKeptIsListed<T, K>(xs: seq<T>, key: T -> K, keep: K -> bool, i: nat, j: nat)
    requires i <= j < |xs|
    requires IsFirstKept(xs, key, keep, j)
    ensures xs[j] in FirstsRef(xs, key, keep, i)
    decreases j - i
  {
    if i < j {
      FirstKeptIsListed(xs, key, keep, i + 1, j);
    }
  }

  /** Index of the first item whose key is `t`, given one exists at or before `j`. */
  lemma {:induction false} FirstWithKey<T, K>(xs: seq<T>, key: T -> K, j: nat) returns (j0: nat)
    requires j < |xs|
    ensures j0 <= j && key(xs[j0]) == key(xs[j])
    ensures forall m :: 0 <= m < j0 ==> key(xs[m]) != key(xs[j])
    decreases j
  {
    j0 := j;
    var m := 0;
    while m < j
      invariant 0 <= m <= j
      invariant forall n :: 0 <= n < m ==> key(xs[n]) != key(xs[j])
      decreases j - m
    {
      if key(xs[m]) == key(xs[j]) {
        j0 := m;
        return;
      }
      m := m + 1;
    }
  }

  /** What the scan guarantees: every kept item passes, no key is kept twice,
      and every passing key in the list is kept. */
  lemma FirstsProperties<T, K>(xs: seq<T>, key: T -> K, keep: K -> bool)
    ensures var r := Firsts(xs, key, keep);
      && (forall k :: 0 <= k < |r| ==> keep(key(r[k])) && r[k] in xs)
      && (forall a, b :: 0 <= a < b < |r| ==> key(r[a]) != key(r[b]))
      && (forall j :: 0 <= j < |xs| && keep(key(xs[j])) ==> exists k :: 0 <= k < |r| && key(r[k]) == key(xs[j]))
  {
    FirstsIsRef(xs, key, keep);
    var r := FirstsRef(xs, key, keep, 0);
    RefDistinct(xs, key, keep, 0);
    RefSound(xs, key, keep, 0);
    forall k | 0 <= k < |r|
      ensures keep(key(r[k])) && r[k] in xs
    {
      var j :| 0 <= j < |xs| && r[k] == xs[j] && IsFirstKept(xs, key, keep, j);
    }
    forall j | 0 <= j < |xs| && keep(key(xs[j]))
      ensures exists k :: 0 <= k < |r| && key(r[k]) == key(xs[j])
    {
      var j0 := FirstWithKey(xs, key, j);
      assert IsFirstKept(xs, key, keep, j0);
      FirstKeptIsListed(xs, key, keep, 0, j0);
      var k :| 0 <= k < |r| && r[k] == xs[j0];
    }
  }

  /** Keys kept by the reference definition are pairwise distinct. */
  lemma {:induction false} RefDistinct<T, K>(xs: seq<T>, key: T -> K, keep: K -> bool, i: nat)
    requires i <= |xs|
    ensures forall a, b :: 0 <= a < b < |FirstsRef(xs, key, keep, i)| ==>
              key(FirstsRef(xs, key, keep, i)[a]) != key(FirstsRef(xs, key, keep, i)[b])
    decreases |xs| - i
  {
    if i < |xs| {
      RefDistinct(xs, key, keep, i + 1);
      RefSound(xs, key, keep, i + 1);
      var rest := FirstsRef(xs, key, keep, i + 1);
      if !IsFirstKept(xs, key, keep, i) {
        assert FirstsRef(xs, key, keep, i) == rest;
      } else {
        var r := [xs[i]] + rest;
        assert r == FirstsRef(xs, key, keep, i);
        forall a, b | 0 <= a < b < |r|
          ensures key(r[a]) != key(r[b])
        {
          if a == 0 {
            assert r[b] == rest[b - 1];
            var j :| i + 1 <= j < |xs| && rest[b - 1] == xs[j] && IsFirstKept(xs, key, keep, j);
          } else {
            assert r[a] == rest[a - 1] && r[b] == rest[b - 1];
          }
        }
      }
    }
  }
}
