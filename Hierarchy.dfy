/** The merged-cell layout of the category table (PNSC.py,
    generar_html_compacto): running group ids per hierarchy level and the
    rowspan of each level's merged cell. */
module Hierarchy {
  import opened Cells

  /** One row of the category query: the four level values (None for NULL),
      COUNT(*) and COUNT(DISTINCT id). */
  datatype CatRow = CatRow(n1: Option<string>, n2: Option<string>, n3: Option<string>,
                           n4: Option<string>, total: nat, unicos: nat)

  /** pandas `a != b`: a missing value compares unequal to everything,
      itself included. */
  predicate Differs<T(==)>(a: Option<T>, b: Option<T>)
  {
    !(a.Some? && b.Some? && a.value == b.value)
  }

  /** Row i opens a group: the first row (compared against the missing
      value that shift() puts there) or a row whose key differs from the
      previous row's. */
  predicate Opens<T(==)>(claves: seq<Option<T>>, i: nat)
    requires i < |claves|
  {
    i == 0 || Differs(claves[i], claves[i - 1])
  }

  /** (claves != claves.shift()).cumsum() at row n - 1: how many of the
      first n rows open a group. */
  function Cumsum<T(==)>(claves: seq<Option<T>>, n: nat): nat
    requires n <= |claves|
  {
    if n == 0 then 0 else Cumsum(claves, n - 1) + (if Opens(claves, n - 1) then 1 else 0)
  }

  /** The group-id column of one level. */
  function Ids<T(==)>(claves: seq<Option<T>>): (ids: seq<nat>)
    ensures |ids| == |claves|
  {
    seq(|claves|, i requires 0 <= i < |claves| => Cumsum(claves, i + 1))
  }

  /** Computes a level's group ids row by row. */
  method IdsDeGrupo<T(==)>(claves: seq<Option<T>>) returns (ids: seq<nat>)
    ensures ids == Ids(claves)
  {
    ids := [];
    var abiertos := 0;
    var i := 0;
    while i < |claves|
      invariant 0 <= i <= |claves|
      invariant abiertos == Cumsum(claves, i)
      invariant |ids| == i
      invariant forall k :: 0 <= k < i ==> ids[k] == Cumsum(claves, k + 1)
    {
      if i == 0 || Differs(claves[i], claves[i - 1]) {
        abiertos := abiertos + 1;
      }
      ids := ids + [abiertos];
      i := i + 1;
    }
  }

  /** The first id is 1; each later id is the previous one plus one when
      the key changed and the previous one otherwise. */
  lemma IdsStep<T>(claves: seq<Option<T>>, i: nat)
    requires i < |claves|
    ensures i == 0 ==> Ids(claves)[i] == 1
    ensures i > 0 ==> Ids(claves)[i] == Ids(claves)[i - 1] + (if Differs(claves[i], claves[i - 1]) then 1 else 0)
  {
  }

  lemma {:induction false} CumsumMonotone<T>(claves: seq<Option<T>>, m: nat, n: nat)
    requires m <= n <= |claves|
    ensures Cumsum(claves, m) <= Cumsum(claves, n)
    decreases n - m
  {
    if m < n {
      CumsumMonotone(claves, m, n - 1);
    }
  }

  /** No key changes between rows i and j exactly when the counter does not
      move between them. */
  lemma {:induction false} CumsumFlat<T>(claves: seq<Option<T>>, i: nat, j: nat)
    requires i <= j < |claves|
    ensures Cumsum(claves, j + 1) == Cumsum(claves, i + 1)
        <==> forall k :: i < k <= j ==> !Opens(claves, k)
    decreases j - i
  {
    if i < j {
      CumsumFlat(claves, i, j - 1);
      CumsumMonotone(claves, i + 1, j);
    }
  }

  predicate NonDecreasing(s: seq<int>)
  {
    forall i, j :: 0 <= i <= j < |s| ==> s[i] <= s[j]
  }

  /** Ids never decrease, start at 1 and grow by at most one per row. */
  lemma IdsShape<T>(claves: seq<Option<T>>)
    ensures NonDecreasing(Ids(claves))
    ensures forall i :: 0 <= i < |claves| ==> 1 <= Ids(claves)[i] <= i + 1
  {
    forall i, j | 0 <= i <= j < |claves| ensures Ids(claves)[i] <= Ids(claves)[j] {
      CumsumMonotone(claves, i + 1, j + 1);
    }
    forall i | 0 <= i < |claves| ensures 1 <= Ids(claves)[i] <= i + 1 {
      CumsumBounds(claves, i + 1);
      CumsumMonotone(claves, 1, i + 1);
    }
  }

  lemma {:induction false} CumsumBounds<T>(claves: seq<Option<T>>, n: nat)
    requires n <= |claves|
    ensures Cumsum(claves, n) <= n
  {
    if n > 0 {
      CumsumBounds(claves, n - 1);
    }
  }

  /** Two rows i <= j share a group id exactly when no row after i up to j
      changes the key, so every group is one contiguous run of rows. */
  lemma SameGroupIff<T>(claves: seq<Option<T>>, i: nat, j: nat)
    requires i <= j < |claves|
    ensures Ids(claves)[i] == Ids(claves)[j] <==> forall k :: i < k <= j ==> !Opens(claves, k)
    ensures Ids(claves)[i] == Ids(claves)[j] ==> forall k :: i <= k <= j ==> Ids(claves)[k] == Ids(claves)[i]
  {
    CumsumFlat(claves, i, j);
    IdsShape(claves);
  }

  /** Occurrences of v in s. */
  function Count(s: seq<int>, v: int): nat
  {
    if s == [] then 0 else Count(s[..|s| - 1], v) + (if s[|s| - 1] == v then 1 else 0)
  }

  lemma {:induction false} CountZero(s: seq<int>, v: int)
    ensures Count(s, v) == 0 <==> v !in s
  {
    if s != [] {
      CountZero(s[..|s| - 1], v);
      assert s == s[..|s| - 1] + [s[|s| - 1]];
    }
  }

  lemma CountSnoc(t: seq<int>, x: int, v: int)
    ensures Count(t + [x], v) == Count(t, v) + (if x == v then 1 else 0)
  {
    assert (t + [x])[..|t|] == t;
  }

  /** Row i of a level emits a merged cell: it is the first row or its id
      differs from the previous row's. */
  predicate IsStart(ids: seq<int>, i: nat)
    requires i < |ids|
  {
    i == 0 || ids[i] != ids[i - 1]
  }

  /** The rowspan a row's merged cell gets (the number of rows sharing its
      id), 0 for a row that emits no cell for this level. */
  function SpanAt(ids: seq<int>, i: nat): nat
    requires i < |ids|
  {
    if IsStart(ids, i) then Count(ids, ids[i]) else 0
  }

  /** A row emits a cell exactly when its span is positive. */
  lemma SpanPositive(ids: seq<int>, i: nat)
    requires i < |ids|
    ensures SpanAt(ids, i) > 0 <==> IsStart(ids, i)
  {
    CountZero(ids, ids[i]);
  }

  /** Computes a level's rowspans: for each row that opens a group, counts
      the rows carrying the same id. */
  method Rowspans(ids: seq<int>) returns (spans: seq<nat>)
    ensures |spans| == |ids|
    ensures forall i :: 0 <= i < |ids| ==> spans[i] == SpanAt(ids, i)
  {
    spans := [];
    var i := 0;
    while i < |ids|
      invariant 0 <= i <= |ids|
      invariant |spans| == i
      invariant forall k :: 0 <= k < i ==> spans[k] == SpanAt(ids, k)
    {
      if i == 0 || ids[i] != ids[i - 1] {
        var filas := 0;
        var j := 0;
        while j < |ids|
          invariant 0 <= j <= |ids|
          invariant filas == Count(ids[..j], ids[i])
        {
          assert ids[..j + 1] == ids[..j] + [ids[j]];
          CountSnoc(ids[..j], ids[j], ids[i]);
          if ids[j] == ids[i] {
            filas := filas + 1;
          }
          j := j + 1;
        }
        assert ids[..|ids|] == ids;
        spans := spans + [filas];
      } else {
        spans := spans + [0];
      }
      i := i + 1;
    }
  }

  /** Sum of the spans of rows 0 .. n-1. */
  function SpanSum(ids: seq<int>, n: nat): nat
    requires n <= |ids|
  {
    if n == 0 then 0 else SpanSum(ids, n - 1) + SpanAt(ids, n - 1)
  }

  /** Rows among 0 .. n-1 that open a group with id x. */
  function StartsWith(ids: seq<int>, n: nat, x: int): nat
    requires n <= |ids|
  {
    if n == 0 then 0 else StartsWith(ids, n - 1, x) + (if IsStart(ids, n - 1) && ids[n - 1] == x then 1 else 0)
  }

  lemma SpanAtSnoc(t: seq<int>, x: int, i: nat)
    requires i < |t|
    ensures SpanAt(t + [x], i) == SpanAt(t, i) + (if IsStart(t, i) && t[i] == x then 1 else 0)
  {
    CountSnoc(t, x, t[i]);
  }

  lemma {:induction false} SpanSumSnoc(t: seq<int>, x: int, n: nat)
    requires n <= |t|
    ensures SpanSum(t + [x], n) == SpanSum(t, n) + StartsWith(t, n, x)
  {
    if n > 0 {
      SpanSumSnoc(t, x, n - 1);
      SpanAtSnoc(t, x, n - 1);
    }
  }

  lemma {:induction false} StartsWithSnoc(u: seq<int>, y: int, n: nat, x: int)
    requires n <= |u|
    ensures StartsWith(u + [y], n, x) == StartsWith(u, n, x)
  {
    if n > 0 {
      StartsWithSnoc(u, y, n - 1, x);
    }
  }

  /** In a non-decreasing column each present id opens exactly one group. */
  lemma {:induction false} OneStartPerId(t: seq<int>, x: int)
    requires NonDecreasing(t)
    ensures StartsWith(t, |t|, x) == if x in t then 1 else 0
  {
    if t != [] {
      var u := t[..|t| - 1];
      var y := t[|t| - 1];
      assert t == u + [y];
      assert NonDecreasing(u);
      OneStartPerId(u, x);
      StartsWithSnoc(u, y, |u|, x);
      if u != [] && y != u[|u| - 1] && y == x {
        assert forall k :: 0 <= k < |u| ==> u[k] <= u[|u| - 1] < y;
      }
    }
  }

  /** The merged cells of a level cover every row exactly once: over a
      non-decreasing id column the spans add up to the number of rows. */
  lemma {:induction false} SpansCoverRows(ids: seq<int>)
    requires NonDecreasing(ids)
    ensures SpanSum(ids, |ids|) == |ids|
  {
    if ids != [] {
      var t := ids[..|ids| - 1];
      var x := ids[|ids| - 1];
      assert ids == t + [x];
      assert NonDecreasing(t);
      SpansCoverRows(t);
      SpanSumSnoc(t, x, |t|);
      OneStartPerId(t, x);
      CountSnoc(t, x, x);
      if t != [] && x != t[|t| - 1] {
        assert forall k :: 0 <= k < |t| ==> t[k] <= t[|t| - 1] < x;
        CountZero(t, x);
      }
      if t == [] {
        assert Count(t, x) == 0;
      }
    }
  }

  function Sum(xs: seq<nat>): nat
  {
    if xs == [] then 0 else Sum(xs[..|xs| - 1]) + xs[|xs| - 1]
  }

  lemma {:induction false} SumOfSpans(spans: seq<nat>, ids: seq<int>, n: nat)
    requires |spans| == |ids| && n <= |ids|
    requires forall i :: 0 <= i < |ids| ==> spans[i] == SpanAt(ids, i)
    ensures Sum(spans[..n]) == SpanSum(ids, n)
  {
    if n > 0 {
      assert spans[..n][..n - 1] == spans[..n - 1];
      SumOfSpans(spans, ids, n - 1);
    }
  }

  /** pandas string addition: missing if either side is missing. */
  function Concat(a: Option<string>, b: Option<string>): (c: Option<string>)
    ensures c.Some? <==> a.Some? && b.Some?
  {
    if a.Some? && b.Some? then Some(a.value + b.value) else None
  }

  /** The keys the three levels are grouped on as written: N1, N1 + N2 and
      N1 + N2 + N3, concatenated as strings. */
  function ClavesConcatenadas(rows: seq<CatRow>, nivel: nat): (c: seq<Option<string>>)
    requires 1 <= nivel <= 3
    ensures |c| == |rows|
  {
    seq(|rows|, i requires 0 <= i < |rows| =>
      if nivel == 1 then rows[i].n1
      else if nivel == 2 then Concat(rows[i].n1, rows[i].n2)
      else Concat(Concat(rows[i].n1, rows[i].n2), rows[i].n3))
  }

  /** The path of level values down to a level, missing if any is NULL. */
  function Ruta(vs: seq<Option<string>>): (p: Option<seq<string>>)
    ensures p.Some? <==> forall k :: 0 <= k < |vs| ==> vs[k].Some?
    ensures p.Some? ==> |p.value| == |vs| && forall k :: 0 <= k < |vs| ==> p.value[k] == vs[k].value
  {
    if vs == [] then Some([])
    else if vs[0].None? then None
    else match Ruta(vs[1..]) case None => None case Some(rest) => Some([vs[0].value] + rest)
  }

  /** The keys compared value by value instead of as one string: a level
      changes when any level above it, or itself, changes. */
  function ClavesRuta(rows: seq<CatRow>, nivel: nat): (c: seq<Option<seq<string>>>)
    requires 1 <= nivel <= 3
    ensures |c| == |rows|
  {
    seq(|rows|, i requires 0 <= i < |rows| =>
      Ruta(if nivel == 1 then [rows[i].n1]
           else if nivel == 2 then [rows[i].n1, rows[i].n2]
           else [rows[i].n1, rows[i].n2, rows[i].n3]))
  }

  /** The rowspans of the three merged columns for given level keys. */
  method Bloques<T(==)>(c1: seq<Option<T>>, c2: seq<Option<T>>, c3: seq<Option<T>>)
    returns (s1: seq<nat>, s2: seq<nat>, s3: seq<nat>)
    requires |c1| == |c2| == |c3|
    ensures |s1| == |c1| && |s2| == |c1| && |s3| == |c1|
    ensures forall i :: 0 <= i < |c1| ==>
              s1[i] == SpanAt(Ids(c1), i) && s2[i] == SpanAt(Ids(c2), i) && s3[i] == SpanAt(Ids(c3), i)
    ensures Sum(s1) == |c1| && Sum(s2) == |c1| && Sum(s3) == |c1|
  {
    var ids1 := IdsDeGrupo(c1);
    var ids2 := IdsDeGrupo(c2);
    var ids3 := IdsDeGrupo(c3);
    s1 := Rowspans(ids1);
    s2 := Rowspans(ids2);
    s3 := Rowspans(ids3);
    CoveredLevel(c1, s1);
    CoveredLevel(c2, s2);
    CoveredLevel(c3, s3);
  }

  lemma CoveredLevel<T>(c: seq<Option<T>>, s: seq<nat>)
    requires |s| == |c|
    requires forall i :: 0 <= i < |c| ==> s[i] == SpanAt(Ids(c), i)
    ensures Sum(s) == |c|
  {
    IdsShape(c);
    SpansCoverRows(Ids(c));
    SumOfSpans(s, Ids(c), |c|);
    assert s[..|c|] == s;
  }

  /** The layout generar_html_compacto emits: per row, the rowspans of
      its N1, N2 and N3 cells (0 where the row emits none). */
  method GenerarBloques(rows: seq<CatRow>) returns (s1: seq<nat>, s2: seq<nat>, s3: seq<nat>)
    ensures |s1| == |rows| && |s2| == |rows| && |s3| == |rows|
    ensures forall i :: 0 <= i < |rows| ==>
              s1[i] == SpanAt(Ids(ClavesConcatenadas(rows, 1)), i) &&
              s2[i] == SpanAt(Ids(ClavesConcatenadas(rows, 2)), i) &&
              s3[i] == SpanAt(Ids(ClavesConcatenadas(rows, 3)), i)
    ensures Sum(s1) == |rows| && Sum(s2) == |rows| && Sum(s3) == |rows|
  {
    s1, s2, s3 := Bloques(ClavesConcatenadas(rows, 1), ClavesConcatenadas(rows, 2), ClavesConcatenadas(rows, 3));
  }

  /** The same layout with the level keys compared value by value. */
  method GenerarBloquesAnidados(rows: seq<CatRow>) returns (s1: seq<nat>, s2: seq<nat>, s3: seq<nat>)
    ensures |s1| == |rows| && |s2| == |rows| && |s3| == |rows|
    ensures forall i :: 0 <= i < |rows| ==>
              s1[i] == SpanAt(Ids(ClavesRuta(rows, 1)), i) &&
              s2[i] == SpanAt(Ids(ClavesRuta(rows, 2)), i) &&
              s3[i] == SpanAt(Ids(ClavesRuta(rows, 3)), i)
    ensures Sum(s1) == |rows| && Sum(s2) == |rows| && Sum(s3) == |rows|
  {
    s1, s2, s3 := Bloques(ClavesRuta(rows, 1), ClavesRuta(rows, 2), ClavesRuta(rows, 3));
  }

  /** As written, two rows whose N1 differ can share one N2 cell: the
      level-2 keys "a" + "bc" and "ab" + "c" are the same string. */
  lemma ConcatenationMergesAcrossParents()
    ensures var rows := [CatRow(Some("a"), Some("bc"), None, None, 1, 1),
                         CatRow(Some("ab"), Some("c"), None, None, 1, 1)];
            Ids(ClavesConcatenadas(rows, 1)) == [1, 2] && Ids(ClavesConcatenadas(rows, 2)) == [1, 1]
  {
    var rows := [CatRow(Some("a"), Some("bc"), None, None, 1, 1),
                 CatRow(Some("ab"), Some("c"), None, None, 1, 1)];
    assert "a" + "bc" == "ab" + "c";
    assert "a" != "ab";
    var c1 := ClavesConcatenadas(rows, 1);
    var c2 := ClavesConcatenadas(rows, 2);
    assert c1[0] == Some("a") && c1[1] == Some("ab");
    assert c2[0] == Concat(Some("a"), Some("bc")) && c2[1] == Concat(Some("ab"), Some("c"));
    assert c2[0] == c2[1];
    assert Opens(c1, 1) && !Opens(c2, 1);
    assert Cumsum(c1, 1) == 1 && Cumsum(c2, 1) == 1;
  }

  /** Compared value by value, a row that opens a group at one level opens
      one at every level below it. */
  lemma PathOpensNest(rows: seq<CatRow>, nivel: nat, i: nat)
    requires 1 <= nivel < 3 && i < |rows|
    ensures Opens(ClavesRuta(rows, nivel), i) ==> Opens(ClavesRuta(rows, nivel + 1), i)
  {
    if i > 0 && Opens(ClavesRuta(rows, nivel), i) {
      var a, b := ClavesRuta(rows, nivel + 1)[i], ClavesRuta(rows, nivel + 1)[i - 1];
      var a0, b0 := ClavesRuta(rows, nivel)[i], ClavesRuta(rows, nivel)[i - 1];
      if a.Some? && b.Some? {
        assert a0.Some? && b0.Some? && a0.value != b0.value;
        var k :| 0 <= k < nivel && a0.value[k] != b0.value[k];
        assert a.value[k] != b.value[k];
      }
    }
  }

  /** Compared value by value, a merged cell of a lower level never spans
      rows that belong to different cells of a higher level. */
  lemma PathBlocksNest(rows: seq<CatRow>, nivel: nat, i: nat, j: nat)
    requires 1 <= nivel < 3 && i <= j < |rows|
    ensures Ids(ClavesRuta(rows, nivel + 1))[i] == Ids(ClavesRuta(rows, nivel + 1))[j]
        ==> Ids(ClavesRuta(rows, nivel))[i] == Ids(ClavesRuta(rows, nivel))[j]
  {
    SameGroupIff(ClavesRuta(rows, nivel + 1), i, j);
    SameGroupIff(ClavesRuta(rows, nivel), i, j);
    forall k | i < k <= j ensures Opens(ClavesRuta(rows, nivel), k) ==> Opens(ClavesRuta(rows, nivel + 1), k) {
      PathOpensNest(rows, nivel, k);
    }
  }
}
