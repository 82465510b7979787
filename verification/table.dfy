/** The pandas operations the parser applies to its tables, written as list
    functions: the ordering `sort_values` uses on object columns, the stable
    multi-column sort itself, and `drop_duplicates`. */
module Table {
  import opened Wrappers

  /** A cell of an object column: a string, or missing (`None`/NaN). */
  type Cell = Option<string>

  /** The sort key of a row: one cell per key column, in key order. */
  type Key = seq<Cell>

  // ---------------------------------------------------------------------
  // Ordering
  // ---------------------------------------------------------------------

  /** Python's `a <= b` on `str`: lexicographic by code point. */
  predicate StrLe(a: string, b: string) {
    if |a| == 0 then true
    else if |b| == 0 then false
    else if a[0] == b[0] then StrLe(a[1..], b[1..])
    else a[0] < b[0]
  }

  /** The textbook definition of the lexicographic order: `a` is a prefix of
      `b`, or the first difference has the smaller character in `a`. */
  ghost predicate LexLe(a: string, b: string) {
    || a <= b
    || exists k :: 0 <= k < |a| && k < |b| && a[..k] == b[..k] && a[k] < b[k]
  }

  /** `StrLe` is exactly the lexicographic order. */
  lemma {:induction false} StrLeIsLexicographic(a: string, b: string)
    ensures StrLe(a, b) <==> LexLe(a, b)
  {
    if |a| == 0 || |b| == 0 {
    } else if a[0] == b[0] {
      StrLeIsLexicographic(a[1..], b[1..]);
      if LexLe(a[1..], b[1..]) {
        if a[1..] <= b[1..] {
          assert a <= b;
        } else {
          var k :| 0 <= k < |a[1..]| && k < |b[1..]| && a[1..][..k] == b[1..][..k] && a[1..][k] < b[1..][k];
          assert a[..k + 1] == [a[0]] + a[1..][..k];
          assert b[..k + 1] == [b[0]] + b[1..][..k];
        }
      }
      if LexLe(a, b) {
        if a <= b {
          assert a[1..] <= b[1..];
        } else {
          var k :| 0 <= k < |a| && k < |b| && a[..k] == b[..k] && a[k] < b[k];
          assert k > 0;
          assert a[1..][..k - 1] == a[..k][1..];
          assert b[1..][..k - 1] == b[..k][1..];
          assert a[1..][k - 1] == a[k];
        }
      }
    } else if a[0] < b[0] {
      assert a[..0] == b[..0];
    }
  }

  lemma {:induction false} StrLeReflexive(a: string)
    ensures StrLe(a, a)
  {
    if |a| > 0 {
      StrLeReflexive(a[1..]);
    }
  }

  lemma {:induction false} StrLeTotal(a: string, b: string)
    ensures StrLe(a, b) || StrLe(b, a)
  {
    if |a| > 0 && |b| > 0 && a[0] == b[0] {
      StrLeTotal(a[1..], b[1..]);
    }
  }

  lemma {:induction false} StrLeAntisymmetric(a: string, b: string)
    requires StrLe(a, b) && StrLe(b, a)
    ensures a == b
  {
    if |a| > 0 && |b| > 0 && a[0] == b[0] {
      StrLeAntisymmetric(a[1..], b[1..]);
      assert a == [a[0]] + a[1..];
      assert b == [b[0]] + b[1..];
    }
  }

  lemma {:induction false} StrLeTransitive(a: string, b: string, c: string)
    requires StrLe(a, b) && StrLe(b, c)
    ensures StrLe(a, c)
  {
    if |a| > 0 && |b| > 0 && |c| > 0 && a[0] == b[0] && b[0] == c[0] {
      StrLeTransitive(a[1..], b[1..], c[1..]);
    }
  }

  /** The order of one key column in `sort_values(na_position="last")`:
      strings in Python order, missing values after every string. */
  predicate CellLe(a: Cell, b: Cell) {
    match (a, b)
    case (Some(x), Some(y)) => StrLe(x, y)
    case (Some(_), None) => true
    case (None, Some(_)) => false
    case (None, None) => true
  }

  lemma {:induction false} CellLeAntisymmetric(a: Cell, b: Cell)
    requires CellLe(a, b) && CellLe(b, a)
    ensures a == b
  {
    if a.Some? && b.Some? {
      StrLeAntisymmetric(a.value, b.value);
    }
  }

  lemma {:induction false} CellLeTransitive(a: Cell, b: Cell, c: Cell)
    requires CellLe(a, b) && CellLe(b, c)
    ensures CellLe(a, c)
  {
    if a.Some? && b.Some? && c.Some? {
      StrLeTransitive(a.value, b.value, c.value);
    }
  }

  lemma {:induction false} CellLeTotal(a: Cell, b: Cell)
    ensures CellLe(a, b) || CellLe(b, a)
  {
    if a.Some? && b.Some? {
      StrLeTotal(a.value, b.value);
    }
  }

  /** `na_position="last"`: a missing value sorts after every string, and
      only a missing value sorts at or after a missing value. */
  lemma {:induction false} CellLeMissingLast(a: Cell, b: Cell)
    ensures CellLe(a, None)
    ensures CellLe(None, b) <==> b.None?
  {
  }

  /** Lexicographic order on keys: the first column decides, ties go to the
      next column. */
  predicate KeyLe(k1: Key, k2: Key) {
    if |k1| == 0 then true
    else if |k2| == 0 then false
    else if k1[0] == k2[0] then KeyLe(k1[1..], k2[1..])
    else CellLe(k1[0], k2[0])
  }

  /** Keys compare as their first differing column does. */
  lemma {:induction false} KeyLeFirstDifference(k1: Key, k2: Key, i: nat)
    requires i < |k1| && i < |k2| && k1[i] != k2[i]
    requires forall m :: 0 <= m < i ==> k1[m] == k2[m]
    ensures KeyLe(k1, k2) <==> CellLe(k1[i], k2[i])
  {
    if i > 0 {
      assert k1[0] == k2[0];
      KeyLeFirstDifference(k1[1..], k2[1..], i - 1);
    }
  }

  lemma {:induction false} KeyLeReflexive(k: Key)
    ensures KeyLe(k, k)
  {
    if |k| > 0 {
      KeyLeReflexive(k[1..]);
    }
  }

  lemma {:induction false} KeyLeTotal(k1: Key, k2: Key)
    ensures KeyLe(k1, k2) || KeyLe(k2, k1)
  {
    if |k1| > 0 && |k2| > 0 {
      if k1[0] == k2[0] {
        KeyLeTotal(k1[1..], k2[1..]);
      } else {
        CellLeTotal(k1[0], k2[0]);
      }
    }
  }

  lemma {:induction false} KeyLeAntisymmetric(k1: Key, k2: Key)
    requires KeyLe(k1, k2) && KeyLe(k2, k1)
    ensures k1 == k2
  {
    if |k1| > 0 && |k2| > 0 {
      if k1[0] == k2[0] {
        KeyLeAntisymmetric(k1[1..], k2[1..]);
        assert k1 == [k1[0]] + k1[1..];
        assert k2 == [k2[0]] + k2[1..];
      } else {
        CellLeAntisymmetric(k1[0], k2[0]);
      }
    }
  }

  lemma {:induction false} KeyLeTransitive(k1: Key, k2: Key, k3: Key)
    requires KeyLe(k1, k2) && KeyLe(k2, k3)
    ensures KeyLe(k1, k3)
  {
    if |k1| > 0 && |k2| > 0 && |k3| > 0 {
      if k1[0] == k2[0] && k2[0] == k3[0] {
        KeyLeTransitive(k1[1..], k2[1..], k3[1..]);
      } else if k1[0] != k2[0] && k2[0] != k3[0] {
        CellLeTransitive(k1[0], k2[0], k3[0]);
        if k1[0] == k3[0] {
          CellLeAntisymmetric(k1[0], k2[0]);
        }
      }
    }
  }

  // ---------------------------------------------------------------------
  // sort_values
  // ---------------------------------------------------------------------

  /** `xs` is in ascending key order. */
  ghost predicate Sorted<T>(xs: seq<T>, key: T -> Key) {
    forall i, j :: 0 <= i < j < |xs| ==> KeyLe(key(xs[i]), key(xs[j]))
  }

  /** Places `x` in front of the first element whose key is not below its own. */
  function Insert<T>(x: T, ys: seq<T>, key: T -> Key): (r: seq<T>)
    ensures multiset(r) == multiset(ys) + multiset{x}
  {
    if |ys| == 0 then [x]
    else if KeyLe(key(x), key(ys[0])) then [x] + ys
    else
      assert ys == [ys[0]] + ys[1..];
      [ys[0]] + Insert(x, ys[1..], key)
  }

  /** Every row of `Insert(x, ys)` is `x` or a row of `ys`. */
  lemma {:induction false} InsertFrom<T>(x: T, ys: seq<T>, key: T -> Key, e: T)
    requires e in Insert(x, ys, key)
    ensures e == x || e in ys
  {
    assert e in multiset(Insert(x, ys, key));
  }

  lemma {:induction false} InsertSorted<T>(x: T, ys: seq<T>, key: T -> Key)
    requires Sorted(ys, key)
    ensures Sorted(Insert(x, ys, key), key)
  {
    if |ys| > 0 && !KeyLe(key(x), key(ys[0])) {
      KeyLeTotal(key(x), key(ys[0]));
      var rest := Insert(x, ys[1..], key);
      InsertSorted(x, ys[1..], key);
      forall j | 0 <= j < |rest|
        ensures KeyLe(key(ys[0]), key(rest[j]))
      {
        InsertFrom(x, ys[1..], key, rest[j]);
        if rest[j] != x {
          var m :| 0 <= m < |ys[1..]| && ys[1..][m] == rest[j];
          assert ys[m + 1] == rest[j];
        }
      }
      PrependSorted(ys[0], rest, key);
    } else if |ys| > 0 {
      forall j | 0 <= j < |ys|
        ensures KeyLe(key(x), key(ys[j]))
      {
        if j > 0 {
          KeyLeTransitive(key(x), key(ys[0]), key(ys[j]));
        }
      }
      PrependSorted(x, ys, key);
    }
  }

  /** Putting a row no greater than any row of a sorted table in front of it
      keeps it sorted. */
  lemma {:induction false} PrependSorted<T>(y: T, rest: seq<T>, key: T -> Key)
    requires Sorted(rest, key)
    requires forall j :: 0 <= j < |rest| ==> KeyLe(key(y), key(rest[j]))
    ensures Sorted([y] + rest, key)
  {
    var r := [y] + rest;
    forall i, j | 0 <= i < j < |r|
      ensures KeyLe(key(r[i]), key(r[j]))
    {
      assert r[j] == rest[j - 1];
      if i > 0 {
        assert r[i] == rest[i - 1];
      }
    }
  }

  /** `DataFrame.sort_values(by)` with several key columns: pandas uses a
      stable lexicographic sort, modelled here as insertion sort. */
  function SortBy<T>(xs: seq<T>, key: T -> Key): (r: seq<T>)
    ensures multiset(r) == multiset(xs)
    ensures Sorted(r, key)
  {
    if |xs| == 0 then []
    else
      var rest := SortBy(xs[1..], key);
      InsertSorted(xs[0], rest, key);
      assert xs == [xs[0]] + xs[1..];
      Insert(xs[0], rest, key)
  }

  /** Sorting a table that is already in order changes nothing. */
  lemma {:induction false} SortBySortedIsIdentity<T>(xs: seq<T>, key: T -> Key)
    requires Sorted(xs, key)
    ensures SortBy(xs, key) == xs
  {
    if |xs| > 0 {
      SortBySortedIsIdentity(xs[1..], key);
      assert xs == [xs[0]] + xs[1..];
    }
  }

  /** The rows of `xs` whose key is `k`, in their order in `xs`. */
  function WithKey<T>(xs: seq<T>, key: T -> Key, k: Key): (r: seq<T>)
    ensures forall e :: e in r ==> e in xs && key(e) == k
  {
    if |xs| == 0 then []
    else if key(xs[0]) == k then [xs[0]] + WithKey(xs[1..], key, k)
    else WithKey(xs[1..], key, k)
  }

  lemma {:induction false} InsertWithKey<T>(x: T, ys: seq<T>, key: T -> Key, k: Key)
    ensures WithKey(Insert(x, ys, key), key, k)
            == (if key(x) == k then [x] else []) + WithKey(ys, key, k)
  {
    if |ys| == 0 {
      assert [x][1..] == [];
    } else if KeyLe(key(x), key(ys[0])) {
      assert ([x] + ys)[0] == x && ([x] + ys)[1..] == ys;
    } else {
      var y := ys[0];
      var rest := Insert(x, ys[1..], key);
      KeyLeReflexive(key(x));
      assert key(x) == k ==> key(y) != k;
      InsertWithKey(x, ys[1..], key, k);
      assert ([y] + rest)[0] == y && ([y] + rest)[1..] == rest;
      assert WithKey(ys, key, k) == (if key(y) == k then [y] else []) + WithKey(ys[1..], key, k);
    }
  }

  /** The sort is stable: rows with equal keys keep their relative order. */
  lemma {:induction false} SortByStable<T>(xs: seq<T>, key: T -> Key, k: Key)
    ensures WithKey(SortBy(xs, key), key, k) == WithKey(xs, key, k)
  {
    if |xs| > 0 {
      SortByStable(xs[1..], key, k);
      InsertWithKey(xs[0], SortBy(xs[1..], key), key, k);
    }
  }

  lemma SeqAppendAssoc<T>(x: seq<T>, y: seq<T>, z: seq<T>)
    ensures x + (y + z) == (x + y) + z
  {
  }

  // ---------------------------------------------------------------------
  // drop_duplicates
  // ---------------------------------------------------------------------

  /** No row occurs twice. */
  ghost predicate NoDup<T>(xs: seq<T>) {
    forall i, j :: 0 <= i < j < |xs| ==> xs[i] != xs[j]
  }

  /** `DataFrame.drop_duplicates()`: keeps the first occurrence of every
      distinct row, in the original order. */
  function DropDuplicates<T(==)>(xs: seq<T>): (r: seq<T>)
    ensures NoDup(r)
    ensures forall i :: 0 <= i < |r| ==> r[i] in xs
    ensures forall i :: 0 <= i < |xs| ==> xs[i] in r
    ensures |r| <= |xs|
  {
    if |xs| == 0 then []
    else
      var init := xs[..|xs| - 1];
      var last := xs[|xs| - 1];
      var rest := DropDuplicates(init);
      assert xs == init + [last];
      if last in rest then rest else rest + [last]
  }

  /** The order of first occurrence: the distinct rows among the first `n`
      rows come first in the result, in the same order as they do when only
      those `n` rows are deduplicated. */
  lemma {:induction false} DropDuplicatesPrefix<T>(xs: seq<T>, n: nat)
    requires n <= |xs|
    ensures var p := DropDuplicates(xs[..n]);
            |p| <= |DropDuplicates(xs)| && DropDuplicates(xs)[..|p|] == p
    decreases |xs|
  {
    if n < |xs| {
      var init := xs[..|xs| - 1];
      assert init[..n] == xs[..n];
      DropDuplicatesPrefix(init, n);
      assert xs == init + [xs[|xs| - 1]];
    } else {
      assert xs[..n] == xs;
    }
  }

  /** A table without duplicate rows is left as it is. */
  lemma {:induction false} DropDuplicatesOfNoDup<T>(xs: seq<T>)
    requires NoDup(xs)
    ensures DropDuplicates(xs) == xs
  {
    if |xs| > 0 {
      var init := xs[..|xs| - 1];
      assert NoDup(init);
      DropDuplicatesOfNoDup(init);
      assert xs[|xs| - 1] !in init;
      assert xs == init + [xs[|xs| - 1]];
    }
  }

  /** Dropping duplicates twice is the same as dropping them once. */
  lemma {:induction false} DropDuplicatesIdempotent<T>(xs: seq<T>)
    ensures DropDuplicates(DropDuplicates(xs)) == DropDuplicates(xs)
  {
    DropDuplicatesOfNoDup(DropDuplicates(xs));
  }

  lemma {:induction false} NoDupCountsOnce<T>(xs: seq<T>, x: T)
    requires NoDup(xs)
    ensures multiset(xs)[x] <= 1
  {
    if |xs| > 0 {
      var init := xs[..|xs| - 1];
      assert xs == init + [xs[|xs| - 1]];
      assert NoDup(init);
      NoDupCountsOnce(init, x);
      assert xs[|xs| - 1] !in init;
    }
  }

  /** A permutation of a table without duplicates has none either; in
      particular sorting keeps a deduplicated table free of duplicates. */
  lemma {:induction false} NoDupPermutation<T>(xs: seq<T>, ys: seq<T>)
    requires NoDup(xs) && multiset(xs) == multiset(ys)
    ensures NoDup(ys)
  {
    forall i, j | 0 <= i < j < |ys|
      ensures ys[i] != ys[j]
    {
      if ys[i] == ys[j] {
        var v := ys[i];
        assert ys == ys[..j] + ys[j..];
        assert v in ys[..j];
        assert v in ys[j..];
        assert multiset(ys)[v] == multiset(ys[..j])[v] + multiset(ys[j..])[v];
        NoDupCountsOnce(xs, v);
        assert false;
      }
    }
  }
}
