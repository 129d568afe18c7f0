/** Reading a table the way `findMany({ where, orderBy: { field: 'desc' } })`
    does: every row that matches, once, newest first. The in-memory tables stand
    in for the database. */
module Tables {

  /** No two keys of `table` hold the same row (rows carry their own id). */
  ghost predicate Injective<K, V>(table: map<K, V>) {
    forall k1, k2 :: k1 in table && k2 in table && k1 != k2 ==> table[k1] != table[k2]
  }

  /** `s` is ordered by `key`, largest first. */
  ghost predicate SortedDesc<T>(s: seq<T>, key: T -> int) {
    forall i, j :: 0 <= i < j < |s| ==> key(s[i]) >= key(s[j])
  }

  /** Every element of `s` occurs once. */
  ghost predicate Distinct<T(!new)>(s: seq<T>) {
    forall x :: multiset(s)[x] <= 1
  }

  /** Inserts `x` into the descending sequence `s` before the first element with
      a smaller or equal key. */
  function InsertDesc<T(!new)>(s: seq<T>, x: T, key: T -> int): (r: seq<T>)
    requires SortedDesc(s, key)
    ensures SortedDesc(r, key)
    ensures multiset(r) == multiset(s) + multiset{x}
  {
    if s == [] || key(x) >= key(s[0]) then
      assert forall i :: 0 <= i < |s| ==> key(s[i]) <= key(x) by {
        forall i | 0 <= i < |s| ensures key(s[i]) <= key(x) {
          assert i == 0 || key(s[i]) <= key(s[0]);
        }
      }
      ConsSortedDesc(x, s, key);
      [x] + s
    else
      var rest := InsertDesc(s[1..], x, key);
      assert s == [s[0]] + s[1..];
      forall i | 0 <= i < |rest| ensures key(rest[i]) <= key(s[0]) {
        var y := rest[i];
        assert y in multiset(rest);
        if y != x {
          assert y in multiset(s[1..]);
          var k :| 0 <= k < |s[1..]| && s[1..][k] == y;
          assert s[k + 1] == y;
        }
      }
      ConsSortedDesc(s[0], rest, key);
      [s[0]] + rest
  }

  /** Putting a head no smaller than any element in front of a descending
      sequence keeps it descending. */
  lemma ConsSortedDesc<T>(h: T, t: seq<T>, key: T -> int)
    requires SortedDesc(t, key)
    requires forall i :: 0 <= i < |t| ==> key(t[i]) <= key(h)
    ensures SortedDesc([h] + t, key)
  {
    var s := [h] + t;
    forall i, j | 0 <= i < j < |s| ensures key(s[i]) >= key(s[j]) {
      assert s[j] == t[j - 1];
      if i > 0 {
        assert s[i] == t[i - 1];
      }
    }
  }

  /** A sequence with no element counted twice has no repeated position. */
  lemma DistinctPositions<T(!new)>(s: seq<T>)
    requires Distinct(s)
    ensures forall i, j :: 0 <= i < j < |s| ==> s[i] != s[j]
  {
    forall i, j | 0 <= i < j < |s| ensures s[i] != s[j] {
      assert s == s[..j] + [s[j]] + s[j + 1..];
      assert multiset(s)[s[j]] == multiset(s[..j])[s[j]] + 1 + multiset(s[j + 1..])[s[j]];
      assert s[j] !in s[..j];
      assert s[i] in s[..j];
    }
  }

  /** The rows of `table` that satisfy `keep`, ordered by `key` descending. */
  method SelectSorted<K, V(==,!new)>(table: map<K, V>, keep: V -> bool, key: V -> int) returns (rows: seq<V>)
    requires Injective(table)
    ensures forall v :: v in rows <==> v in table.Values && keep(v)
    ensures Distinct(rows)
    ensures forall i, j :: 0 <= i < j < |rows| ==> rows[i] != rows[j]
    ensures SortedDesc(rows, key)
  {
    var pending := table.Keys;
    rows := [];
    while pending != {}
      invariant pending <= table.Keys
      invariant forall v :: v in rows <==> exists k :: k in table && k !in pending && table[k] == v && keep(v)
      invariant Distinct(rows)
      invariant SortedDesc(rows, key)
      decreases pending
    {
      var k :| k in pending;
      var v := table[k];
      if keep(v) {
        assert v !in rows;
        ghost var before := rows;
        rows := InsertDesc(rows, v, key);
        forall y ensures y in rows <==> y == v || y in before {
          assert y in rows <==> y in multiset(rows);
          assert y in before <==> y in multiset(before);
        }
      }
      pending := pending - {k};
    }
    DistinctPositions(rows);
  }
}
