/** In-memory stand-ins for the parts of the relational engine the store relies on:
    a WHERE clause, the first row of a result (`fetchObject` called once), a lookup by
    INTEGER PRIMARY KEY, the equi-join behind a view, and LIMIT/OFFSET. */
module Relational {
  import opened Wrappers

  function Min(a: int, b: int): int { if a <= b then a else b }

  /** The rows of `s` that satisfy `p`, in their original order (a WHERE clause). */
  function Filter<T(!new)>(s: seq<T>, p: T -> bool): (r: seq<T>)
    ensures |r| <= |s|
    ensures forall x :: x in r <==> x in s && p(x)
    ensures forall x {:trigger multiset(r)[x]} :: p(x) ==> multiset(r)[x] == multiset(s)[x]
  {
    if s == [] then []
    else
      assert s == [s[0]] + s[1..];
      (if p(s[0]) then [s[0]] else []) + Filter(s[1..], p)
  }

  /** Position of the first row satisfying `p`, or `|s|` when none does. */
  function FirstIndex<T>(s: seq<T>, p: T -> bool): (k: nat)
    ensures k <= |s|
    ensures k < |s| ==> p(s[k])
    ensures forall j :: 0 <= j < k ==> !p(s[j])
  {
    if s == [] then 0
    else if p(s[0]) then 0
    else 1 + FirstIndex(s[1..], p)
  }

  /** The first row satisfying `p`: what `fetchObject` returns from a WHERE query,
      `None` standing for its `false` when the result is empty. */
  function First<T>(s: seq<T>, p: T -> bool): (r: Option<T>)
    ensures r.None? <==> forall k :: 0 <= k < |s| ==> !p(s[k])
    ensures r.Some? ==> exists k :: 0 <= k < |s| && s[k] == r.value && p(s[k])
                                  && forall j :: 0 <= j < k ==> !p(s[j])
  {
    var k := FirstIndex(s, p);
    if k < |s| then Some(s[k]) else None
  }

  /** The first match in a concatenation is the first match in its first part, if there is one. */
  lemma {:induction false} FirstAppend<T>(a: seq<T>, b: seq<T>, p: T -> bool)
    ensures First(a + b, p) == if First(a, p).Some? then First(a, p) else First(b, p)
  {
    FirstIndexAppend(a, b, p);
  }

  lemma {:induction false} FirstIndexAppend<T>(a: seq<T>, b: seq<T>, p: T -> bool)
    ensures FirstIndex(a + b, p) ==
            if FirstIndex(a, p) < |a| then FirstIndex(a, p) else |a| + FirstIndex(b, p)
  {
    if a == [] {
      assert a + b == b;
    } else {
      assert (a + b)[1..] == a[1..] + b;
      FirstIndexAppend(a[1..], b, p);
    }
  }

  /** Lookup of the index row whose key is `k` (an INTEGER PRIMARY KEY). */
  function FindKey<I>(idx: seq<I>, key: I -> int, k: int): (r: Option<I>)
    ensures r.None? <==> forall i :: i in idx ==> key(i) != k
    ensures r.Some? ==> r.value in idx && key(r.value) == k
  {
    if idx == [] then None
    else if key(idx[0]) == k then Some(idx[0])
    else FindKey(idx[1..], key, k)
  }

  /** Appending an index row never changes the answer for a key already present. */
  lemma {:induction false} FindKeyAppend<I>(idx: seq<I>, n: I, key: I -> int, k: int)
    ensures FindKey(idx + [n], key, k) ==
            if FindKey(idx, key, k).Some? then FindKey(idx, key, k)
            else if key(n) == k then Some(n) else None
  {
    if idx != [] {
      assert (idx + [n])[1..] == idx[1..] + [n];
      FindKeyAppend(idx[1..], n, key, k);
    }
  }

  /** The view `SELECT ... FROM idx, data WHERE data.ref == idx.key`: one row per data
      row whose key is found among the index rows, in data-row order. */
  function Join<I(!new), D(!new), R>(idx: seq<I>, data: seq<D>, key: I -> int, ref: D -> int, row: (I, D) -> R): (r: seq<R>)
    ensures |r| == |Filter(data, (d: D) => FindKey(idx, key, ref(d)).Some?)|
    ensures forall x :: x in r ==>
              exists i, d :: d in data && FindKey(idx, key, ref(d)) == Some(i) && x == row(i, d)
    ensures forall d :: d in data && FindKey(idx, key, ref(d)).Some? ==>
              row(FindKey(idx, key, ref(d)).value, d) in r
  {
    if data == [] then []
    else
      (match FindKey(idx, key, ref(data[0]))
       case None => []
       case Some(i) => [row(i, data[0])])
      + Join(idx, data[1..], key, ref, row)
  }

  lemma {:induction false} JoinAppend<I(!new), D(!new), R>(idx: seq<I>, a: seq<D>, b: seq<D>,
                                              key: I -> int, ref: D -> int, row: (I, D) -> R)
    ensures Join(idx, a + b, key, ref, row) == Join(idx, a, key, ref, row) + Join(idx, b, key, ref, row)
  {
    if a == [] {
      assert a + b == b;
    } else {
      assert (a + b)[1..] == a[1..] + b;
      JoinAppend(idx, a[1..], b, key, ref, row);
    }
  }

  /** Data rows that already had their index row keep joining to it after an insert. */
  lemma {:induction false} JoinExtendIndex<I(!new), D(!new), R>(idx: seq<I>, n: I, data: seq<D>,
                                                   key: I -> int, ref: D -> int, row: (I, D) -> R)
    requires forall d :: d in data ==> FindKey(idx, key, ref(d)).Some?
    ensures Join(idx + [n], data, key, ref, row) == Join(idx, data, key, ref, row)
  {
    if data != [] {
      FindKeyAppend(idx, n, key, ref(data[0]));
      JoinExtendIndex(idx, n, data[1..], key, ref, row);
    }
  }

  /** Data rows that all refer to a freshly inserted key join to the new index row, one to one. */
  lemma {:induction false} JoinNewKey<I(!new), D(!new), R>(idx: seq<I>, n: I, rows: seq<D>,
                                              key: I -> int, ref: D -> int, row: (I, D) -> R)
    requires FindKey(idx, key, key(n)).None?
    requires forall d :: d in rows ==> ref(d) == key(n)
    ensures |Join(idx + [n], rows, key, ref, row)| == |rows|
    ensures forall k :: 0 <= k < |rows| ==> Join(idx + [n], rows, key, ref, row)[k] == row(n, rows[k])
  {
    if rows != [] {
      FindKeyAppend(idx, n, key, ref(rows[0]));
      JoinNewKey(idx, n, rows[1..], key, ref, row);
    }
  }

  /** The rows a join produces for data rows that all reference one index row `n`. */
  function JoinedTo<I, D, R>(n: I, rows: seq<D>, row: (I, D) -> R): (r: seq<R>)
    ensures |r| == |rows| && forall k :: 0 <= k < |rows| ==> r[k] == row(n, rows[k])
  {
    seq(|rows|, k requires 0 <= k < |rows| => row(n, rows[k]))
  }

  /** What one insert of an index row plus its data rows does to the view: the old rows
      stay, in place, and exactly one new row per new data row follows them. */
  lemma JoinAfterInsert<I(!new), D(!new), R>(idx: seq<I>, data: seq<D>, n: I, rows: seq<D>,
                                 key: I -> int, ref: D -> int, row: (I, D) -> R)
    requires forall d :: d in data ==> FindKey(idx, key, ref(d)).Some?
    requires FindKey(idx, key, key(n)).None?
    requires forall d :: d in rows ==> ref(d) == key(n)
    ensures Join(idx + [n], data + rows, key, ref, row) == Join(idx, data, key, ref, row) + JoinedTo(n, rows, row)
  {
    JoinAppend(idx + [n], data, rows, key, ref, row);
    JoinExtendIndex(idx, n, data, key, ref, row);
    JoinNewKey(idx, n, rows, key, ref, row);
    assert Join(idx + [n], rows, key, ref, row) == JoinedTo(n, rows, row);
  }


  /** No two elements of `s` share an `rk` value. */
  ghost predicate DistinctBy<T, K>(s: seq<T>, rk: T -> K) {
    forall j, k :: 0 <= j < k < |s| ==> rk(s[j]) != rk(s[k])
  }

  /** A join keeps data rows apart: when no two data rows share a `dk` value, and a joined row
      carries the `dk` value of the data row it comes from, no two joined rows share an `rk` value. */
  lemma {:induction false} JoinKeepsDistinct<I(!new), D(!new), R, K>(
    idx: seq<I>, data: seq<D>, key: I -> int, ref: D -> int, row: (I, D) -> R, dk: D -> K, rk: R -> K)
    requires forall i, d :: key(i) == ref(d) ==> rk(row(i, d)) == dk(d)
    requires DistinctBy(data, dk)
    ensures DistinctBy(Join(idx, data, key, ref, row), rk)
  {
    if data != [] {
      var rest := Join(idx, data[1..], key, ref, row);
      JoinKeepsDistinct(idx, data[1..], key, ref, row, dk, rk);
      var r := Join(idx, data, key, ref, row);
      if FindKey(idx, key, ref(data[0])).Some? {
        var i := FindKey(idx, key, ref(data[0])).value;
        assert r == [row(i, data[0])] + rest;
        forall k | 1 <= k < |r| ensures rk(r[0]) != rk(r[k]) {
          assert r[k] in rest;
          var i', d' :| d' in data[1..] && FindKey(idx, key, ref(d')) == Some(i') && r[k] == row(i', d');
          var m :| 0 <= m < |data[1..]| && data[1..][m] == d';
          assert dk(data[0]) != dk(data[m + 1]);
        }
        forall j, k | 0 <= j < k < |r| ensures rk(r[j]) != rk(r[k]) {
          if j > 0 {
            assert r[j] == rest[j - 1] && r[k] == rest[k - 1];
            assert rk(rest[j - 1]) != rk(rest[k - 1]);
          }
        }
      } else {
        assert r == rest;
      }
    }
  }

  /** A WHERE clause keeps rows apart: a subsequence of rows with distinct `rk` values has them too. */
  lemma {:induction false} FilterKeepsDistinct<T(!new), K>(s: seq<T>, p: T -> bool, rk: T -> K)
    requires DistinctBy(s, rk)
    ensures DistinctBy(Filter(s, p), rk)
  {
    if s != [] {
      var rest := Filter(s[1..], p);
      FilterKeepsDistinct(s[1..], p, rk);
      var r := Filter(s, p);
      if p(s[0]) {
        assert r == [s[0]] + rest;
        forall k | 1 <= k < |r| ensures rk(r[0]) != rk(r[k]) {
          assert r[k] in rest;
          var m :| 0 <= m < |s[1..]| && s[1..][m] == r[k];
          assert rk(s[0]) != rk(s[m + 1]);
        }
        forall j, k | 0 <= j < k < |r| ensures rk(r[j]) != rk(r[k]) {
          if j > 0 {
            assert r[j] == rest[j - 1] && r[k] == rest[k - 1];
            assert rk(rest[j - 1]) != rk(rest[k - 1]);
          }
        }
      } else {
        assert r == rest;
      }
    }
  }

  /** Number of rows an OFFSET `start` skips, as `Category::articles` emits it (only when positive). */
  function Skipped(total: nat, start: int): (s: nat)
    ensures s <= total
  {
    if start > 0 then Min(start, total) else 0
  }

  /** `LIMIT limit OFFSET start` as `Category::articles` appends it: a LIMIT only when
      `limit > 0`, an OFFSET only when `start > 0`. An OFFSET without a LIMIT is a
      statement whose validity depends on the engine, so no result is claimed (`None`). */
  function Paginate<T>(rows: seq<T>, limit: int, start: int): (r: Option<seq<T>>)
    ensures r.Some? <==> limit > 0 || start <= 0
    ensures r.Some? && limit <= 0 ==> r.value == rows
    ensures r.Some? ==> forall x :: x in r.value ==> x in rows
    ensures r.Some? && limit > 0 ==>
              var skip := Skipped(|rows|, start);
              |r.value| == Min(limit, |rows| - skip)
              && forall k :: 0 <= k < |r.value| ==> r.value[k] == rows[skip + k]
  {
    if limit > 0 then
      var skip := Skipped(|rows|, start);
      var page := rows[skip..][..Min(limit, |rows| - skip)];
      assert forall x :: x in page ==> x in rows[skip..];
      Some(page)
    else if start > 0 then None
    else Some(rows)
  }

  /** A page of rows that are pairwise apart is pairwise apart too. */
  lemma PaginateKeepsDistinct<T, K>(rows: seq<T>, limit: int, start: int, rk: T -> K)
    requires DistinctBy(rows, rk) && (limit > 0 || start <= 0)
    ensures DistinctBy(Paginate(rows, limit, start).value, rk)
  {
    var page := Paginate(rows, limit, start).value;
    if limit > 0 {
      var skip := Skipped(|rows|, start);
      forall j, k | 0 <= j < k < |page| ensures rk(page[j]) != rk(page[k]) {
        assert page[j] == rows[skip + j] && page[k] == rows[skip + k];
      }
    }
  }

  /** Two consecutive pages put together are the page as long as both. */
  lemma PagesConcatenate<T>(rows: seq<T>, a: int, b: int, start: int)
    requires a > 0 && b > 0 && start >= 0
    ensures Paginate(rows, a, start).value + Paginate(rows, b, start + a).value
            == Paginate(rows, a + b, start).value
  {
    var p, q, pq := Paginate(rows, a, start).value, Paginate(rows, b, start + a).value,
                    Paginate(rows, a + b, start).value;
    var s := Skipped(|rows|, start);
    assert |p| + |q| == |pq|;
    forall k | 0 <= k < |pq| ensures (p + q)[k] == pq[k] {
      if k >= |p| {
        assert Skipped(|rows|, start + a) == s + |p|;
      }
    }
  }
}
