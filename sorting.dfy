/** Sorting strings: Collection::sort() on a list of strings, taken here as
    the lexicographic order of the characters. */
module Sorting {
  /** a comes no later than b in lexicographic order. */
  predicate LexLessEq(a: string, b: string)
    decreases |a|
  {
    a == [] || (b != [] && (a[0] < b[0] || (a[0] == b[0] && LexLessEq(a[1..], b[1..]))))
  }

  lemma {:induction false} LexTotal(a: string, b: string)
    ensures LexLessEq(a, b) || LexLessEq(b, a)
    decreases |a|
  {
    if a != [] && b != [] && a[0] == b[0] {
      LexTotal(a[1..], b[1..]);
    }
  }

  lemma {:induction false} LexAntisymmetric(a: string, b: string)
    requires LexLessEq(a, b) && LexLessEq(b, a)
    ensures a == b
    decreases |a|
  {
    if a != [] {
      LexAntisymmetric(a[1..], b[1..]);
      assert a == [a[0]] + a[1..] && b == [b[0]] + b[1..];
    }
  }

  lemma {:induction false} LexTransitive(a: string, b: string, c: string)
    requires LexLessEq(a, b) && LexLessEq(b, c)
    ensures LexLessEq(a, c)
    decreases |a|
  {
    if a != [] && a[0] == b[0] && b[0] == c[0] {
      LexTransitive(a[1..], b[1..], c[1..]);
    }
  }

  predicate Sorted(s: seq<string>) {
    forall i, j | 0 <= i < j < |s| :: LexLessEq(s[i], s[j])
  }

  /** x inserted in front of the first element it does not exceed. */
  function Insert(x: string, s: seq<string>): (r: seq<string>)
    requires Sorted(s)
    ensures Sorted(r)
    ensures multiset(r) == multiset(s) + multiset{x}
  {
    if s == [] then [x]
    else if LexLessEq(x, s[0]) then
      forall j | 0 < j < |s| ensures LexLessEq(x, s[j]) { LexTransitive(x, s[0], s[j]); }
      [x] + s
    else
      LexTotal(x, s[0]);
      var t := Insert(x, s[1..]);
      assert s == [s[0]] + s[1..];
      InsertConsSorted(s[0], x, s[1..], t);
      [s[0]] + t
  }

  lemma InsertConsSorted(h: string, x: string, rest: seq<string>, t: seq<string>)
    requires LexLessEq(h, x) && Sorted([h] + rest) && Sorted(t)
    requires multiset(t) == multiset(rest) + multiset{x}
    ensures Sorted([h] + t)
  {
    forall j | 0 <= j < |t| ensures LexLessEq(h, t[j]) {
      assert t[j] in multiset(t);
      if t[j] != x {
        assert t[j] in multiset(rest);
        var k :| 0 <= k < |rest| && rest[k] == t[j];
        var hr := [h] + rest;
        assert hr[0] == h && hr[k + 1] == rest[k];
        assert LexLessEq(hr[0], hr[k + 1]);
      }
    }
  }

  /** The strings in ascending order. */
  function Sort(s: seq<string>): (r: seq<string>)
    ensures Sorted(r)
    ensures multiset(r) == multiset(s)
  {
    if s == [] then []
    else
      assert s == s[..|s| - 1] + [s[|s| - 1]];
      Insert(s[|s| - 1], Sort(s[..|s| - 1]))
  }

  /** s is in descending order by key (the latest first). */
  predicate SortedDesc<T>(key: T -> string, s: seq<T>) {
    forall i, j | 0 <= i < j < |s| :: LexLessEq(key(s[j]), key(s[i]))
  }

  /** x inserted in front of the first element whose key it is not below, so
      x also goes in front of the elements with an equal key. */
  function InsertDesc<T(==)>(key: T -> string, x: T, s: seq<T>): (r: seq<T>)
    requires SortedDesc(key, s)
    ensures SortedDesc(key, r)
    ensures multiset(r) == multiset(s) + multiset{x}
  {
    if s == [] then [x]
    else if LexLessEq(key(s[0]), key(x)) then
      forall j | 0 < j < |s| ensures LexLessEq(key(s[j]), key(x)) { LexTransitive(key(s[j]), key(s[0]), key(x)); }
      [x] + s
    else
      LexTotal(key(x), key(s[0]));
      var t := InsertDesc(key, x, s[1..]);
      assert s == [s[0]] + s[1..];
      InsertConsSortedDesc(key, s[0], x, s[1..], t);
      [s[0]] + t
  }

  lemma InsertConsSortedDesc<T>(key: T -> string, h: T, x: T, rest: seq<T>, t: seq<T>)
    requires LexLessEq(key(x), key(h)) && SortedDesc(key, [h] + rest) && SortedDesc(key, t)
    requires multiset(t) == multiset(rest) + multiset{x}
    ensures SortedDesc(key, [h] + t)
  {
    var ht := [h] + t;
    forall i, j | 0 <= i < j < |ht| ensures LexLessEq(key(ht[j]), key(ht[i])) {
      if i == 0 {
        var y := t[j - 1];
        assert y in multiset(t);
        if y != x {
          assert y in multiset(rest);
          var k :| 0 <= k < |rest| && rest[k] == y;
          var hr := [h] + rest;
          assert hr[0] == h && hr[k + 1] == y;
        }
      } else {
        assert ht[i] == t[i - 1] && ht[j] == t[j - 1];
      }
    }
  }

  /** Laravel's sortByDesc on a key: the same elements, the latest key first. */
  function SortByDesc<T(==)>(key: T -> string, s: seq<T>): (r: seq<T>)
    ensures SortedDesc(key, r)
    ensures multiset(r) == multiset(s)
  {
    if s == [] then []
    else
      assert s == [s[0]] + s[1..];
      InsertDesc(key, s[0], SortByDesc(key, s[1..]))
  }
}
