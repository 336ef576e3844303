/** Grouping rows by a key and ordering the groups by size, largest first:
    the semantics shared by SQL's GROUP BY ... ORDER BY COUNT(*) DESC and by
    pandas' groupby(...).size() followed by sort_values(ascending=False). */
module Grouping {

  /** The rows that share one key, in table order. */
  datatype Group<K, T> = Group(key: K, rows: seq<T>)

  /** The rows of `rows` whose key is `k`, in order. */
  function Members<T(!new), K(==)>(rows: seq<T>, key: T -> K, k: K): (m: seq<T>)
    ensures |m| <= |rows|
    ensures forall x :: x in m <==> x in rows && key(x) == k
  {
    if rows == [] then []
    else
      var last := rows[|rows| - 1];
      Members(rows[..|rows| - 1], key, k) + (if key(last) == k then [last] else [])
  }

  ghost predicate HasKey<K, T>(gs: seq<Group<K, T>>, k: K)
  {
    exists i :: 0 <= i < |gs| && gs[i].key == k
  }

  ghost predicate DistinctKeys<K, T>(gs: seq<Group<K, T>>)
  {
    forall i, j :: 0 <= i < j < |gs| ==> gs[i].key != gs[j].key
  }

  /** Number of rows over all groups. */
  function Total<K, T>(gs: seq<Group<K, T>>): nat
  {
    if gs == [] then 0 else |gs[0].rows| + Total(gs[1..])
  }

  /** Counts one more row `x` with key `k`: into its group if there is one,
      otherwise into a new group at the end. */
  function Add<K(==), T>(gs: seq<Group<K, T>>, k: K, x: T): seq<Group<K, T>>
  {
    if gs == [] then [Group(k, [x])]
    else if gs[0].key == k then [Group(k, gs[0].rows + [x])] + gs[1..]
    else [gs[0]] + Add(gs[1..], k, x)
  }

  lemma HasKeyTail<K, T>(gs: seq<Group<K, T>>, k: K)
    requires gs != [] && gs[0].key != k
    ensures HasKey(gs, k) <==> HasKey(gs[1..], k)
  {
    if HasKey(gs, k) {
      var i :| 0 <= i < |gs| && gs[i].key == k;
      assert gs[1..][i - 1].key == k;
    }
    if HasKey(gs[1..], k) {
      var i :| 0 <= i < |gs[1..]| && gs[1..][i].key == k;
      assert gs[i + 1].key == k;
    }
  }

  /** Add grows the group of `k` by `x` and leaves every other group alone. */
  lemma {:induction false} AddSpec<K, T>(gs: seq<Group<K, T>>, k: K, x: T)
    requires DistinctKeys(gs)
    ensures var r := Add(gs, k, x);
            && |r| == (if HasKey(gs, k) then |gs| else |gs| + 1)
            && (forall i :: 0 <= i < |gs| ==>
                  r[i] == if gs[i].key == k then Group(k, gs[i].rows + [x]) else gs[i])
            && (!HasKey(gs, k) ==> r[|gs|] == Group(k, [x]))
            && Total(r) == Total(gs) + 1
  {
    var r := Add(gs, k, x);
    if gs == [] {
    } else if gs[0].key == k {
      assert r[1..] == gs[1..];
      assert HasKey(gs, k);
    } else {
      AddSpec(gs[1..], k, x);
      HasKeyTail(gs, k);
      assert r[1..] == Add(gs[1..], k, x);
    }
  }

  lemma AddKeepsKeysDistinct<K, T>(gs: seq<Group<K, T>>, k: K, x: T)
    requires DistinctKeys(gs)
    ensures DistinctKeys(Add(gs, k, x))
  {
    AddSpec(gs, k, x);
    var r := Add(gs, k, x);
    forall i, j | 0 <= i < j < |r| ensures r[i].key != r[j].key {
      if j == |gs| {
        assert !HasKey(gs, k);
        assert r[i].key == gs[i].key;
      }
    }
  }

  /** The groups of `rows` by `key`, in order of first appearance. */
  function GroupBy<T, K(==)>(rows: seq<T>, key: T -> K): seq<Group<K, T>>
  {
    if rows == [] then []
    else Add(GroupBy(rows[..|rows| - 1], key), key(rows[|rows| - 1]), rows[|rows| - 1])
  }

  /** No two groups share a key. */
  lemma {:induction false} GroupByDistinct<T, K>(rows: seq<T>, key: T -> K)
    ensures DistinctKeys(GroupBy(rows, key))
  {
    if rows != [] {
      GroupByDistinct(rows[..|rows| - 1], key);
      AddKeepsKeysDistinct(GroupBy(rows[..|rows| - 1], key), key(rows[|rows| - 1]), rows[|rows| - 1]);
    }
  }

  /** Together the groups hold every row exactly once. */
  lemma {:induction false} GroupByTotal<T, K>(rows: seq<T>, key: T -> K)
    ensures Total(GroupBy(rows, key)) == |rows|
  {
    if rows != [] {
      var init := rows[..|rows| - 1];
      GroupByTotal(init, key);
      GroupByDistinct(init, key);
      AddSpec(GroupBy(init, key), key(rows[|rows| - 1]), rows[|rows| - 1]);
    }
  }

  /** Every row's key has a group. */
  lemma {:induction false} GroupByCovers<T(!new), K>(rows: seq<T>, key: T -> K)
    ensures forall x :: x in rows ==> HasKey(GroupBy(rows, key), key(x))
  {
    if rows != [] {
      var init, last := rows[..|rows| - 1], rows[|rows| - 1];
      var gs0 := GroupBy(init, key);
      var gs := GroupBy(rows, key);
      GroupByCovers(init, key);
      GroupByDistinct(init, key);
      AddSpec(gs0, key(last), last);
      assert rows == init + [last];
      forall x | x in rows
        ensures HasKey(gs, key(x))
      {
        if HasKey(gs0, key(x)) {
          var i :| 0 <= i < |gs0| && gs0[i].key == key(x);
          assert gs[i].key == key(x);
        } else {
          assert x == last;
          assert gs[|gs0|].key == key(x);
        }
      }
    }
  }

  /** Each group holds exactly the rows with its key, in table order. */
  lemma {:induction false} GroupByMembers<T(!new), K>(rows: seq<T>, key: T -> K)
    ensures forall i :: 0 <= i < |GroupBy(rows, key)| ==>
              GroupBy(rows, key)[i].rows == Members(rows, key, GroupBy(rows, key)[i].key) &&
              GroupBy(rows, key)[i].rows != []
  {
    if rows != [] {
      var init, last := rows[..|rows| - 1], rows[|rows| - 1];
      var gs0 := GroupBy(init, key);
      var gs := GroupBy(rows, key);
      GroupByMembers(init, key);
      GroupByDistinct(init, key);
      AddSpec(gs0, key(last), last);
      forall i | 0 <= i < |gs|
        ensures gs[i].rows == Members(rows, key, gs[i].key) && gs[i].rows != []
      {
        var k := gs[i].key;
        assert Members(rows, key, k) == Members(init, key, k) + (if key(last) == k then [last] else []);
        if i == |gs0| {
          NewKeyHasNoMembers(init, key, k);
          assert gs[i] == Group(key(last), [last]);
        } else {
          assert gs0[i].rows == Members(init, key, gs0[i].key);
          assert gs[i] == if gs0[i].key == key(last) then Group(key(last), gs0[i].rows + [last]) else gs0[i];
        }
      }
    }
  }

  lemma NewKeyHasNoMembers<T(!new), K>(rows: seq<T>, key: T -> K, k: K)
    requires !HasKey(GroupBy(rows, key), k)
    ensures Members(rows, key, k) == []
  {
    GroupByCovers(rows, key);
    var gs := GroupBy(rows, key);
    assert forall x :: x in rows ==> key(x) != k by {
      forall x | x in rows ensures key(x) != k {
        assert HasKey(gs, key(x));
      }
    }
    MembersOfAbsentKey(rows, key, k);
  }

  lemma {:induction false} MembersOfAbsentKey<T(!new), K>(rows: seq<T>, key: T -> K, k: K)
    requires forall x :: x in rows ==> key(x) != k
    ensures Members(rows, key, k) == []
  {
    if rows != [] {
      MembersOfAbsentKey(rows[..|rows| - 1], key, k);
      assert rows[|rows| - 1] in rows;
    }
  }

  /** Sizes never increase from one group to the next. */
  predicate Descending<K, T>(gs: seq<Group<K, T>>)
  {
    forall i, j :: 0 <= i < j < |gs| ==> |gs[i].rows| >= |gs[j].rows|
  }

  /** Places `g` before the first group that is not larger than it. */
  function Insert<K, T>(g: Group<K, T>, gs: seq<Group<K, T>>): seq<Group<K, T>>
  {
    if gs == [] || |g.rows| >= |gs[0].rows| then [g] + gs
    else [gs[0]] + Insert(g, gs[1..])
  }

  /** Insertion adds exactly `g`: a permutation of `g` and `gs`. */
  lemma InsertSpec<K(!new), T(!new)>(g: Group<K, T>, gs: seq<Group<K, T>>)
    ensures var r := Insert(g, gs);
            && |r| == |gs| + 1
            && multiset(r) == multiset(gs) + multiset{g}
            && (forall y :: y in r <==> y == g || y in gs)
            && Total(r) == Total(gs) + |g.rows|
  {
    InsertMultiset(g, gs);
    InsertTotal(g, gs);
    var r := Insert(g, gs);
    forall y ensures y in r <==> y == g || y in gs {
      assert y in r <==> y in multiset(r);
      assert y in gs <==> y in multiset(gs);
    }
  }

  lemma {:induction false} InsertMultiset<K(!new), T(!new)>(g: Group<K, T>, gs: seq<Group<K, T>>)
    ensures multiset(Insert(g, gs)) == multiset(gs) + multiset{g}
  {
    if gs != [] && |g.rows| < |gs[0].rows| {
      var rest := Insert(g, gs[1..]);
      InsertMultiset(g, gs[1..]);
      assert Insert(g, gs) == [gs[0]] + rest;
      assert gs == [gs[0]] + gs[1..];
    }
  }

  lemma {:induction false} InsertTotal<K, T>(g: Group<K, T>, gs: seq<Group<K, T>>)
    ensures |Insert(g, gs)| == |gs| + 1
    ensures Total(Insert(g, gs)) == Total(gs) + |g.rows|
  {
    var r := Insert(g, gs);
    if gs == [] || |g.rows| >= |gs[0].rows| {
      assert r[1..] == gs;
    } else {
      InsertTotal(g, gs[1..]);
      assert r[1..] == Insert(g, gs[1..]);
    }
  }

  /** Insertion into a list ordered by size keeps it ordered. */
  lemma {:induction false} InsertDescending<K(!new), T(!new)>(g: Group<K, T>, gs: seq<Group<K, T>>)
    requires Descending(gs)
    ensures Descending(Insert(g, gs))
  {
    if gs != [] && |g.rows| < |gs[0].rows| {
      var rest := Insert(g, gs[1..]);
      InsertDescending(g, gs[1..]);
      HeadBoundsInsert(g, gs);
      var r := Insert(g, gs);
      assert r == [gs[0]] + rest;
      forall i, j | 0 <= i < j < |r| ensures |r[i].rows| >= |r[j].rows| {
        if i == 0 {
          assert r[j] == rest[j - 1];
        } else {
          assert r[i] == rest[i - 1] && r[j] == rest[j - 1];
        }
      }
    }
  }

  lemma HeadBoundsInsert<K(!new), T(!new)>(g: Group<K, T>, gs: seq<Group<K, T>>)
    requires Descending(gs) && gs != [] && |g.rows| < |gs[0].rows|
    ensures forall j :: 0 <= j < |Insert(g, gs[1..])| ==> |gs[0].rows| >= |Insert(g, gs[1..])[j].rows|
  {
    var rest := Insert(g, gs[1..]);
    InsertSpec(g, gs[1..]);
    forall j | 0 <= j < |rest| ensures |gs[0].rows| >= |rest[j].rows| {
      var y := rest[j];
      assert y in rest;
      if y != g {
        var i :| 0 <= i < |gs[1..]| && gs[1..][i] == y;
        assert gs[i + 1] == y;
      }
    }
  }

  lemma {:induction false} InsertKeepsKeysDistinct<K(!new), T(!new)>(g: Group<K, T>, gs: seq<Group<K, T>>)
    requires DistinctKeys(gs) && !HasKey(gs, g.key)
    ensures DistinctKeys(Insert(g, gs))
  {
    if gs != [] && |g.rows| < |gs[0].rows| {
      var rest := Insert(g, gs[1..]);
      HasKeyTail(gs, g.key);
      InsertKeepsKeysDistinct(g, gs[1..]);
      InsertSpec(g, gs[1..]);
      forall y | y in rest ensures y.key != gs[0].key {
        if y != g {
          var i :| 0 <= i < |gs[1..]| && gs[1..][i] == y;
          assert gs[i + 1] == y;
        }
      }
    }
  }

  /** Insertion sort by group size, largest first; among equal sizes the
      earlier group stays first. */
  function SortBySize<K, T>(gs: seq<Group<K, T>>): seq<Group<K, T>>
  {
    if gs == [] then [] else Insert(gs[0], SortBySize(gs[1..]))
  }

  /** The sort is a permutation, ordered by size, with the same row total. */
  lemma SortBySizeSpec<K(!new), T(!new)>(gs: seq<Group<K, T>>)
    ensures var r := SortBySize(gs);
            && |r| == |gs|
            && multiset(r) == multiset(gs)
            && (forall y :: y in r <==> y in gs)
            && Descending(r)
            && Total(r) == Total(gs)
  {
    SortBySizePermutes(gs);
    SortBySizeDescending(gs);
  }

  lemma SortBySizePermutes<K(!new), T(!new)>(gs: seq<Group<K, T>>)
    ensures var r := SortBySize(gs);
            && |r| == |gs|
            && multiset(r) == multiset(gs)
            && (forall y :: y in r <==> y in gs)
            && Total(r) == Total(gs)
  {
    SortBySizeMultiset(gs);
    SortBySizeTotal(gs);
    var r := SortBySize(gs);
    assert |r| == |multiset(r)| == |multiset(gs)| == |gs|;
    forall y ensures y in r <==> y in gs {
      assert y in r <==> y in multiset(r);
      assert y in gs <==> y in multiset(gs);
    }
  }

  lemma {:induction false} SortBySizeMultiset<K(!new), T(!new)>(gs: seq<Group<K, T>>)
    ensures multiset(SortBySize(gs)) == multiset(gs)
  {
    if gs != [] {
      SortBySizeMultiset(gs[1..]);
      InsertMultiset(gs[0], SortBySize(gs[1..]));
      assert gs == [gs[0]] + gs[1..];
    }
  }

  lemma {:induction false} SortBySizeTotal<K, T>(gs: seq<Group<K, T>>)
    ensures Total(SortBySize(gs)) == Total(gs)
  {
    if gs != [] {
      SortBySizeTotal(gs[1..]);
      InsertTotal(gs[0], SortBySize(gs[1..]));
    }
  }

  lemma {:induction false} SortBySizeDescending<K(!new), T(!new)>(gs: seq<Group<K, T>>)
    ensures Descending(SortBySize(gs))
  {
    if gs != [] {
      SortBySizeDescending(gs[1..]);
      InsertDescending(gs[0], SortBySize(gs[1..]));
    }
  }

  lemma {:induction false} SortKeepsKeysDistinct<K(!new), T(!new)>(gs: seq<Group<K, T>>)
    requires DistinctKeys(gs)
    ensures DistinctKeys(SortBySize(gs))
  {
    if gs != [] {
      var sorted := SortBySize(gs[1..]);
      SortKeepsKeysDistinct(gs[1..]);
      SortBySizeSpec(gs[1..]);
      forall i | 0 <= i < |sorted| ensures sorted[i].key != gs[0].key {
        assert sorted[i] in gs[1..];
        var j :| 0 <= j < |gs[1..]| && gs[1..][j] == sorted[i];
        assert gs[j + 1] == sorted[i];
      }
      InsertKeepsKeysDistinct(gs[0], sorted);
    }
  }

  /** GROUP BY key ORDER BY COUNT(*) DESC: the groups of `rows`, largest
      first, one per key that occurs, each holding exactly that key's rows,
      together holding every row once. */
  function Summary<T(!new), K(==,!new)>(rows: seq<T>, key: T -> K): (gs: seq<Group<K, T>>)
    ensures Descending(gs)
    ensures DistinctKeys(gs)
    ensures forall i :: 0 <= i < |gs| ==> gs[i].rows == Members(rows, key, gs[i].key) && gs[i].rows != []
    ensures forall x :: x in rows ==> HasKey(gs, key(x))
    ensures Total(gs) == |rows|
  {
    var unsorted := GroupBy(rows, key);
    GroupByDistinct(rows, key);
    GroupByTotal(rows, key);
    GroupByMembers(rows, key);
    GroupByCovers(rows, key);
    SortBySizeSpec(unsorted);
    SortKeepsKeysDistinct(unsorted);
    var gs := SortBySize(unsorted);
    PermutedMembers(rows, key, unsorted, gs);
    PermutedCovers(rows, key, unsorted, gs);
    gs
  }

  lemma PermutedMembers<T(!new), K(!new)>(rows: seq<T>, key: T -> K, gs0: seq<Group<K, T>>, gs: seq<Group<K, T>>)
    requires forall y :: y in gs ==> y in gs0
    requires forall i :: 0 <= i < |gs0| ==> gs0[i].rows == Members(rows, key, gs0[i].key) && gs0[i].rows != []
    ensures forall i :: 0 <= i < |gs| ==> gs[i].rows == Members(rows, key, gs[i].key) && gs[i].rows != []
  {
    forall i | 0 <= i < |gs|
      ensures gs[i].rows == Members(rows, key, gs[i].key) && gs[i].rows != []
    {
      assert gs[i] in gs0;
    }
  }

  lemma PermutedCovers<T(!new), K(!new)>(rows: seq<T>, key: T -> K, gs0: seq<Group<K, T>>, gs: seq<Group<K, T>>)
    requires forall y :: y in gs0 ==> y in gs
    requires forall x :: x in rows ==> HasKey(gs0, key(x))
    ensures forall x :: x in rows ==> HasKey(gs, key(x))
  {
    forall x | x in rows ensures HasKey(gs, key(x)) {
      var i :| 0 <= i < |gs0| && gs0[i].key == key(x);
      assert gs0[i] in gs;
    }
  }

  /** Groups are never empty, so there are at most as many groups as rows. */
  lemma SummaryLength<T(!new), K(!new)>(rows: seq<T>, key: T -> K)
    ensures |Summary(rows, key)| <= |rows|
  {
    NonEmptyGroupsBound(Summary(rows, key));
  }

  lemma {:induction false} NonEmptyGroupsBound<K, T>(gs: seq<Group<K, T>>)
    requires forall i :: 0 <= i < |gs| ==> gs[i].rows != []
    ensures |gs| <= Total(gs)
  {
    if gs != [] {
      NonEmptyGroupsBound(gs[1..]);
    }
  }

  /** Keeping the first n groups of the summary keeps the largest ones: a
      key left out has no more rows than any group kept. */
  lemma SummaryTop<T(!new), K(!new)>(rows: seq<T>, key: T -> K, n: nat, k: K)
    requires forall i :: 0 <= i < n && i < |Summary(rows, key)| ==> Summary(rows, key)[i].key != k
    ensures forall i :: 0 <= i < n && i < |Summary(rows, key)| ==>
              |Members(rows, key, k)| <= |Summary(rows, key)[i].rows|
  {
    var gs := Summary(rows, key);
    if HasKey(gs, k) {
      var j :| 0 <= j < |gs| && gs[j].key == k;
      assert n <= j;
    } else {
      assert forall x :: x in rows ==> key(x) != k;
      MembersOfAbsentKey(rows, key, k);
    }
  }

  /** The (key, number of rows) pairs of a list of groups. */
  function Sizes<K, T>(gs: seq<Group<K, T>>): (r: seq<(K, nat)>)
  {
    seq(|gs|, i requires 0 <= i < |gs| => (gs[i].key, |gs[i].rows|))
  }
}
