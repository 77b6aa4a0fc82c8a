/**
 * "Sort List": each list of the catalog is sorted by the lower-cased `name` of
 * its elements, with Python's stable `list.sort`. Strings compare code point by
 * code point, a proper prefix first. Lower-casing is restricted to ASCII.
 */
module Sorting {
  import opened Catalog

  /** ASCII `str.lower()` on one character. */
  function LowerChar(c: char): (r: char)
    ensures !('A' <= r <= 'Z')
  {
    if 'A' <= c <= 'Z' then (c as int + 32) as char else c
  }

  /** ASCII `str.lower()`. */
  function Lower(s: string): (r: string)
    ensures |r| == |s|
    ensures forall i :: 0 <= i < |r| ==> r[i] == LowerChar(s[i]) && !('A' <= r[i] <= 'Z')
  {
    if s == [] then [] else [LowerChar(s[0])] + Lower(s[1..])
  }

  /** Python's `a <= b` on strings. */
  predicate StrLeq(a: string, b: string)
  {
    a == [] || (b != [] && (a[0] < b[0] || (a[0] == b[0] && StrLeq(a[1..], b[1..]))))
  }

  lemma {:induction false} StrLeqReflexive(a: string)
    ensures StrLeq(a, a)
  {
    if a != [] {
      StrLeqReflexive(a[1..]);
    }
  }

  lemma {:induction false} StrLeqTotal(a: string, b: string)
    ensures StrLeq(a, b) || StrLeq(b, a)
  {
    if a != [] && b != [] && a[0] == b[0] {
      StrLeqTotal(a[1..], b[1..]);
    }
  }

  lemma {:induction false} StrLeqTransitive(a: string, b: string, c: string)
    requires StrLeq(a, b) && StrLeq(b, c)
    ensures StrLeq(a, c)
  {
    if a != [] && a[0] == b[0] && b[0] == c[0] {
      StrLeqTransitive(a[1..], b[1..], c[1..]);
    }
  }

  /** The sort key of both lists: `x["name"].lower()`. */
  function ExeKey(e: Executable): string { Lower(e.name) }
  function GroupKey(g: Group): string { Lower(g.name) }

  // ---------------------------------------------------------------------------
  // A stable sort by key

  /** `s` is in non-decreasing key order. */
  ghost predicate SortedBy<T>(s: seq<T>, key: T -> string)
  {
    forall i, j :: 0 <= i < j < |s| ==> StrLeq(key(s[i]), key(s[j]))
  }

  /** The elements of `s` whose key is `k`, in their order in `s`. */
  function WithKey<T>(s: seq<T>, key: T -> string, k: string): seq<T>
  {
    if s == [] then [] else (if key(s[0]) == k then [s[0]] else []) + WithKey(s[1..], key, k)
  }

  /** Inserts `x` in front of the first element whose key is not below its own. */
  function InsertByKey<T>(x: T, s: seq<T>, key: T -> string): seq<T>
  {
    if s == [] || StrLeq(key(x), key(s[0])) then [x] + s else [s[0]] + InsertByKey(x, s[1..], key)
  }

  /** `list.sort(key=key)`: an insertion sort, stable because each element is put
      in front of the elements of equal key that followed it. */
  function SortByKey<T>(s: seq<T>, key: T -> string): seq<T>
  {
    if s == [] then [] else InsertByKey(s[0], SortByKey(s[1..], key), key)
  }

  lemma {:induction false} InsertByKeyPermutes<T>(x: T, s: seq<T>, key: T -> string)
    ensures multiset(InsertByKey(x, s, key)) == multiset(s) + multiset{x}
  {
    if s != [] && !StrLeq(key(x), key(s[0])) {
      InsertByKeyPermutes(x, s[1..], key);
      assert s == [s[0]] + s[1..];
    }
  }

  lemma {:induction false} InsertByKeyKeepsKeyOrder<T>(x: T, s: seq<T>, key: T -> string, k: string)
    ensures WithKey(InsertByKey(x, s, key), key, k) == (if key(x) == k then [x] else []) + WithKey(s, key, k)
  {
    if s != [] && !StrLeq(key(x), key(s[0])) {
      InsertByKeyKeepsKeyOrder(x, s[1..], key, k);
      StrLeqReflexive(key(x));
      assert key(s[0]) != key(x);
      assert ([s[0]] + InsertByKey(x, s[1..], key))[1..] == InsertByKey(x, s[1..], key);
    } else {
      assert ([x] + s)[1..] == s;
    }
  }

  lemma {:induction false} InsertByKeySorted<T>(x: T, s: seq<T>, key: T -> string)
    requires SortedBy(s, key)
    ensures SortedBy(InsertByKey(x, s, key), key)
  {
    var r := InsertByKey(x, s, key);
    if s == [] || StrLeq(key(x), key(s[0])) {
      assert r == [x] + s;
      forall i, j | 0 <= i < j < |r|
        ensures StrLeq(key(r[i]), key(r[j]))
      {
        if i == 0 && j > 1 {
          StrLeqTransitive(key(x), key(s[0]), key(s[j - 1]));
        }
      }
    } else {
      var rest := InsertByKey(x, s[1..], key);
      InsertByKeySorted(x, s[1..], key);
      InsertByKeyPermutes(x, s[1..], key);
      assert r == [s[0]] + rest;
      StrLeqTotal(key(x), key(s[0]));
      forall j | 0 <= j < |rest|
        ensures StrLeq(key(s[0]), key(rest[j]))
      {
        assert rest[j] in multiset(rest);
        if rest[j] != x {
          assert rest[j] in multiset(s[1..]);
          var m :| 0 <= m < |s[1..]| && s[1..][m] == rest[j];
          assert StrLeq(key(s[0]), key(s[m + 1]));
        }
      }
      forall i, j | 0 <= i < j < |r|
        ensures StrLeq(key(r[i]), key(r[j]))
      {
        if i == 0 {
          assert r[j] == rest[j - 1];
        } else {
          assert r[i] == rest[i - 1] && r[j] == rest[j - 1];
        }
      }
    }
  }

  /** `SortByKey` yields a sorted permutation of its input in which the elements of
      each key keep their relative order. */
  lemma {:induction false} SortByKeySpec<T>(s: seq<T>, key: T -> string)
    ensures SortedBy(SortByKey(s, key), key)
    ensures multiset(SortByKey(s, key)) == multiset(s)
    ensures forall k :: WithKey(SortByKey(s, key), key, k) == WithKey(s, key, k)
  {
    if s != [] {
      var rest := SortByKey(s[1..], key);
      SortByKeySpec(s[1..], key);
      InsertByKeySorted(s[0], rest, key);
      InsertByKeyPermutes(s[0], rest, key);
      assert s == [s[0]] + s[1..];
      forall k
        ensures WithKey(SortByKey(s, key), key, k) == WithKey(s, key, k)
      {
        InsertByKeyKeepsKeyOrder(s[0], rest, key, k);
      }
    }
  }

  /** Sorting an already sorted list leaves it as it is. */
  lemma {:induction false} SortByKeyOfSorted<T>(s: seq<T>, key: T -> string)
    requires SortedBy(s, key)
    ensures SortByKey(s, key) == s
  {
    if s != [] {
      assert SortedBy(s[1..], key);
      SortByKeyOfSorted(s[1..], key);
      assert s == [s[0]] + s[1..];
    }
  }

  lemma SortByKeyIdempotent<T>(s: seq<T>, key: T -> string)
    ensures SortByKey(SortByKey(s, key), key) == SortByKey(s, key)
  {
    SortByKeySpec(s, key);
    SortByKeyOfSorted(SortByKey(s, key), key);
  }

  // ---------------------------------------------------------------------------
  // sort_list on the catalog

  /** The catalog after `sort_list`: both top-level lists sorted, sub-groups as they were. */
  function SortCatalog(c: Catalog): Catalog
  {
    Catalog(SortByKey(c.executables, ExeKey), SortByKey(c.groups, GroupKey))
  }

  /** Each list is a permutation of its old contents, in non-decreasing order of its
      lower-cased names, with equal keys in their old relative order; a group keeps
      its whole subtree, since only whole elements of the top-level list move. */
  lemma SortCatalogSpec(c: Catalog)
    ensures SortedBy(SortCatalog(c).executables, ExeKey)
    ensures SortedBy(SortCatalog(c).groups, GroupKey)
    ensures multiset(SortCatalog(c).executables) == multiset(c.executables)
    ensures multiset(SortCatalog(c).groups) == multiset(c.groups)
    ensures forall k :: WithKey(SortCatalog(c).executables, ExeKey, k) == WithKey(c.executables, ExeKey, k)
    ensures forall k :: WithKey(SortCatalog(c).groups, GroupKey, k) == WithKey(c.groups, GroupKey, k)
  {
    SortByKeySpec(c.executables, ExeKey);
    SortByKeySpec(c.groups, GroupKey);
  }

  lemma SortCatalogIdempotent(c: Catalog)
    ensures SortCatalog(SortCatalog(c)) == SortCatalog(c)
  {
    SortByKeyIdempotent(c.executables, ExeKey);
    SortByKeyIdempotent(c.groups, GroupKey);
  }
}
