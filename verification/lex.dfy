/** The order Rust's `Ord for str` puts strings in (character by character;
    a proper prefix comes first), with the two algorithms the core runs on
    it: `slice::binary_search` over a sorted table, and the ascending
    iteration of a `BTreeMap`. */
module Lex {

  /** `a < b` for Rust strings. */
  predicate LexLess(a: string, b: string)
    decreases |a|
  {
    if a == [] then b != []
    else b != [] && (a[0] < b[0] || (a[0] == b[0] && LexLess(a[1..], b[1..])))
  }

  lemma {:induction false} LexIrreflexive(a: string)
    ensures !LexLess(a, a)
    decreases |a|
  {
    if a != [] {
      LexIrreflexive(a[1..]);
    }
  }

  lemma {:induction false} LexTransitive(a: string, b: string, c: string)
    requires LexLess(a, b) && LexLess(b, c)
    ensures LexLess(a, c)
    decreases |a|
  {
    if a != [] && a[0] == b[0] && b[0] == c[0] {
      LexTransitive(a[1..], b[1..], c[1..]);
    }
  }

  lemma {:induction false} LexTotal(a: string, b: string)
    ensures a == b || LexLess(a, b) || LexLess(b, a)
    decreases |a|
  {
    if a != [] && b != [] && a[0] == b[0] {
      LexTotal(a[1..], b[1..]);
      if a[1..] == b[1..] {
        assert a == [a[0]] + a[1..] && b == [b[0]] + b[1..];
      }
    }
  }

  lemma LexAsymmetric(a: string, b: string)
    requires LexLess(a, b)
    ensures !LexLess(b, a) && a != b
  {
    LexIrreflexive(a);
    if LexLess(b, a) {
      LexTransitive(a, b, a);
    }
  }

  /** Every earlier entry is strictly below every later one. */
  predicate StrictlySorted(t: seq<string>) {
    forall i, j :: 0 <= i < j < |t| ==> LexLess(t[i], t[j])
  }

  /** Each entry is strictly below its successor: the form that a literal
      table can be checked in entry by entry. */
  predicate AdjacentSorted(t: seq<string>) {
    forall i :: 0 < i < |t| ==> LexLess(t[i - 1], t[i])
  }

  lemma {:induction false} AdjacentSortedIsSorted(t: seq<string>)
    requires AdjacentSorted(t)
    ensures StrictlySorted(t)
    decreases |t|
  {
    if |t| > 1 {
      var init := t[..|t| - 1];
      assert AdjacentSorted(init);
      AdjacentSortedIsSorted(init);
      forall i, j | 0 <= i < j < |t|
        ensures LexLess(t[i], t[j])
      {
        if j == |t| - 1 && i < j - 1 {
          assert LexLess(init[i], init[j - 1]);
          LexTransitive(t[i], t[j - 1], t[j]);
        } else if j < |t| - 1 {
          assert LexLess(init[i], init[j]);
        }
      }
    }
  }

  /** `t[lo..hi].binary_search(&key).is_ok()`: halve the range around its
      middle entry until the key is found or the range is empty. */
  function BinarySearch(t: seq<string>, key: string, lo: nat, hi: nat): (found: bool)
    requires StrictlySorted(t)
    requires lo <= hi <= |t|
    ensures found <==> key in t[lo..hi]
    decreases hi - lo
  {
    if lo == hi then false
    else
      var mid := (lo + hi) / 2;
      if t[mid] == key then true
      else if LexLess(key, t[mid]) then
        BelowIsAbsent(t, key, mid, hi);
        BinarySearch(t, key, lo, mid)
      else
        LexTotal(key, t[mid]);
        AboveIsAbsent(t, key, lo, mid);
        BinarySearch(t, key, mid + 1, hi)
  }

  /** A key below `t[mid]` is not in `t[mid..hi]`. */
  lemma BelowIsAbsent(t: seq<string>, key: string, mid: nat, hi: nat)
    requires StrictlySorted(t)
    requires mid < hi <= |t|
    requires LexLess(key, t[mid])
    ensures key !in t[mid..hi]
  {
    forall j | mid <= j < hi
      ensures t[j] != key
    {
      if j == mid {
        LexAsymmetric(key, t[mid]);
      } else {
        LexTransitive(key, t[mid], t[j]);
        LexAsymmetric(key, t[j]);
      }
    }
  }

  /** A key above `t[mid]` is not in `t[lo..mid + 1]`. */
  lemma AboveIsAbsent(t: seq<string>, key: string, lo: nat, mid: nat)
    requires StrictlySorted(t)
    requires lo <= mid < |t|
    requires LexLess(t[mid], key)
    ensures key !in t[lo..mid + 1]
  {
    forall j | lo <= j <= mid
      ensures t[j] != key
    {
      if j == mid {
        LexAsymmetric(t[mid], key);
      } else {
        LexTransitive(t[j], t[mid], key);
        LexAsymmetric(t[j], key);
      }
    }
  }

  /** `m` is the smallest string of `s`. */
  predicate IsLeast(m: string, s: set<string>) {
    m in s && forall x :: x in s && x != m ==> LexLess(m, x)
  }

  lemma LeastExists(s: set<string>)
    requires s != {}
    ensures exists m :: IsLeast(m, s)
    decreases |s|
  {
    var x :| x in s;
    if s == {x} {
      assert IsLeast(x, s);
    } else {
      LeastExists(s - {x});
      var m :| IsLeast(m, s - {x});
      LexTotal(x, m);
      if LexLess(x, m) {
        forall y | y in s && y != x
          ensures LexLess(x, y)
        {
          if y != m {
            LexTransitive(x, m, y);
          }
        }
        assert IsLeast(x, s);
      } else {
        assert IsLeast(m, s);
      }
    }
  }

  lemma LeastUnique(s: set<string>)
    ensures forall a, b :: IsLeast(a, s) && IsLeast(b, s) ==> a == b
  {
    forall a, b | IsLeast(a, s) && IsLeast(b, s)
      ensures a == b
    {
      if a != b {
        LexAsymmetric(a, b);
      }
    }
  }

  /** The smallest string of a non-empty set. */
  function Least(s: set<string>): (m: string)
    requires s != {}
    ensures IsLeast(m, s)
  {
    LeastExists(s);
    LeastUnique(s);
    var m :| IsLeast(m, s);
    m
  }

  /** The strings of `s` in ascending order: the key order in which a
      `BTreeMap` is iterated. */
  function SortedKeys(s: set<string>): (r: seq<string>)
    ensures StrictlySorted(r)
    ensures forall k :: k in s <==> k in r
    ensures |r| == |s|
    decreases |s|
  {
    if s == {} then []
    else
      var m := Least(s);
      var rest := SortedKeys(s - {m});
      assert forall j :: 0 <= j < |rest| ==> rest[j] in s - {m};
      [m] + rest
  }
}
