/**
 * Generic operations on a table held as a sequence of rows, each row having an
 * integer key (an id column). They model the few pandas idioms the record store
 * relies on: the values of an id column, membership of a value in it, the
 * `max() + 1` id allocation, the boolean-mask filter `t[t[col] != k]` and the
 * first matching row label `t[t[col] == k].index[0]`.
 */
module Tables {
  import opened Wrappers

  /** The column of keys, in row order. */
  function Keys<T>(rows: seq<T>, key: T -> int): (ks: seq<int>)
    ensures |ks| == |rows|
    ensures forall i :: 0 <= i < |rows| ==> ks[i] == key(rows[i])
  {
    seq(|rows|, i requires 0 <= i < |rows| => key(rows[i]))
  }

  /** No two rows share a key. */
  predicate Distinct<T>(rows: seq<T>, key: T -> int)
  {
    forall i, j :: 0 <= i < j < |rows| ==> key(rows[i]) != key(rows[j])
  }

  /** The largest value of a non-empty column. */
  function Max(xs: seq<int>): (m: int)
    requires xs != []
    ensures m in xs
    ensures forall i :: 0 <= i < |xs| ==> xs[i] <= m
  {
    if |xs| == 1 then xs[0]
    else
      var rest := Max(xs[1..]);
      if xs[0] < rest then rest else xs[0]
  }

  /** Sequential id allocation: 1 for an empty column, otherwise one more than its maximum. */
  function NextId(ids: seq<int>): (r: int)
    ensures ids == [] ==> r == 1
    ensures ids != [] ==> r - 1 in ids
    ensures forall i :: 0 <= i < |ids| ==> ids[i] < r
  {
    if ids == [] then 1 else Max(ids) + 1
  }

  /** The rows whose key differs from `k`, in their original order. */
  function Without<T(!new)>(rows: seq<T>, key: T -> int, k: int): (r: seq<T>)
    ensures |r| <= |rows|
    ensures forall x :: x in r <==> x in rows && key(x) != k
    ensures k !in Keys(r, key)
    ensures k !in Keys(rows, key) ==> r == rows
  {
    if rows == [] then []
    else
      assert k !in Keys(rows, key) ==> k !in Keys(rows[1..], key);
      if key(rows[0]) == k then Without(rows[1..], key, k)
      else [rows[0]] + Without(rows[1..], key, k)
  }

  /** Position of the first row whose key is `k`, if any. */
  function FirstWith<T>(rows: seq<T>, key: T -> int, k: int): (r: Option<nat>)
    ensures r.None? <==> k !in Keys(rows, key)
    ensures r.Some? ==> r.value < |rows| && key(rows[r.value]) == k
    ensures r.Some? ==> forall i :: 0 <= i < r.value ==> key(rows[i]) != k
    ensures r.Some? && Distinct(rows, key) ==>
      forall i :: 0 <= i < |rows| && key(rows[i]) == k ==> i == r.value
  {
    if rows == [] then None
    else if key(rows[0]) == k then Some(0)
    else
      var tail := rows[1..];
      assert k in Keys(rows, key) ==> k in Keys(tail, key) by {
        if k in Keys(rows, key) {
          var i :| 0 <= i < |rows| && Keys(rows, key)[i] == k;
          assert i > 0 && Keys(tail, key)[i - 1] == k;
        }
      }
      match FirstWith(tail, key, k)
      case None => None
      case Some(i) =>
        assert Keys(rows, key)[i + 1] == k;
        Some(i + 1)
  }

  /** Filtering distributes over concatenation: the kept rows stay in their original order. */
  lemma {:induction false} WithoutAppend<T(!new)>(a: seq<T>, b: seq<T>, key: T -> int, k: int)
    ensures Without(a + b, key, k) == Without(a, key, k) + Without(b, key, k)
  {
    if a == [] {
      assert a + b == b;
    } else {
      assert (a + b)[1..] == a[1..] + b;
      WithoutAppend(a[1..], b, key, k);
    }
  }

  /** Filtering twice by the same key removes nothing more. */
  lemma WithoutIdempotent<T(!new)>(rows: seq<T>, key: T -> int, k: int)
    ensures Without(Without(rows, key, k), key, k) == Without(rows, key, k)
  {
  }

  /** Filtering keeps keys distinct. */
  lemma {:induction false} WithoutKeepsDistinct<T(!new)>(rows: seq<T>, key: T -> int, k: int)
    requires Distinct(rows, key)
    ensures Distinct(Without(rows, key, k), key)
  {
    if rows != [] {
      WithoutKeepsDistinct(rows[1..], key, k);
      var rest := Without(rows[1..], key, k);
      if key(rows[0]) != k {
        var r := [rows[0]] + rest;
        forall i, j | 0 <= i < j < |r| ensures key(r[i]) != key(r[j]) {
          if i == 0 {
            assert r[j] in rows[1..];
            var m :| 0 <= m < |rows[1..]| && rows[1..][m] == r[j];
            assert rows[m + 1] == r[j];
          }
        }
      }
    }
  }

  /** With distinct keys, removing a present key removes exactly one row. */
  lemma {:induction false} WithoutPresentUnique<T(!new)>(rows: seq<T>, key: T -> int, k: int)
    requires Distinct(rows, key)
    requires k in Keys(rows, key)
    ensures |Without(rows, key, k)| == |rows| - 1
  {
    var tail := rows[1..];
    if key(rows[0]) == k {
      assert k !in Keys(tail, key) by {
        forall i | 0 <= i < |tail| ensures Keys(tail, key)[i] != k {
          assert tail[i] == rows[i + 1];
        }
      }
    } else {
      assert k in Keys(tail, key) by {
        var i :| 0 <= i < |rows| && Keys(rows, key)[i] == k;
        assert i > 0 && Keys(tail, key)[i - 1] == k;
      }
      assert Distinct(tail, key) by {
        forall i, j | 0 <= i < j < |tail| ensures key(tail[i]) != key(tail[j]) {
          assert tail[i] == rows[i + 1] && tail[j] == rows[j + 1];
        }
      }
      WithoutPresentUnique(tail, key, k);
    }
  }

  /** Appending a row whose key exceeds every present key keeps keys distinct. */
  lemma AppendLargerKeepsDistinct<T>(rows: seq<T>, key: T -> int, y: T)
    requires Distinct(rows, key)
    requires forall i :: 0 <= i < |rows| ==> key(rows[i]) < key(y)
    ensures Distinct(rows + [y], key)
  {
  }

  /** The key column after appending one row. */
  lemma KeysAppend<T>(rows: seq<T>, key: T -> int, y: T)
    ensures Keys(rows + [y], key) == Keys(rows, key) + [key(y)]
  {
  }

  /** Replacing a row by one with the same key leaves the key column unchanged. */
  lemma KeysUpdate<T>(rows: seq<T>, key: T -> int, i: nat, y: T)
    requires i < |rows| && key(y) == key(rows[i])
    ensures Keys(rows[i := y], key) == Keys(rows, key)
  {
  }
}
