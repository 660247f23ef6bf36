/** percentile(values, pct): linear interpolation in the sorted values, in exact arithmetic. */
module Percentile {

  predicate Ascending(xs: seq<real>) { forall i, j :: 0 <= i < j < |xs| ==> xs[i] <= xs[j] }

  function Insert(x: real, xs: seq<real>): (r: seq<real>)
    ensures |r| == |xs| + 1
    ensures forall y :: y in r <==> y == x || y in xs
    ensures Ascending(xs) ==> Ascending(r)
  {
    if xs != [] && xs[0] < x then
      assert xs == [xs[0]] + xs[1..];
      var rest := Insert(x, xs[1..]);
      assert forall j :: 0 <= j < |rest| ==> rest[j] in rest;
      [xs[0]] + rest
    else [x] + xs
  }

  function Sorted(xs: seq<real>): (r: seq<real>)
    ensures |r| == |xs| && Ascending(r)
  {
    if xs == [] then [] else Insert(xs[0], Sorted(xs[1..]))
  }

  lemma {:induction false} InsertMultiset(x: real, xs: seq<real>)
    ensures multiset(Insert(x, xs)) == multiset([x]) + multiset(xs)
  {
    hide Ascending;
    if xs != [] && xs[0] < x {
      InsertMultiset(x, xs[1..]);
      assert xs == [xs[0]] + xs[1..];
    }
  }

  lemma {:induction false} SortedIsSorted(xs: seq<real>)
    ensures Ascending(Sorted(xs)) && multiset(Sorted(xs)) == multiset(xs)
  {
    hide Ascending, Insert;
    if xs != [] {
      SortedIsSorted(xs[1..]);
      InsertMultiset(xs[0], Sorted(xs[1..]));
      assert xs == [xs[0]] + xs[1..];
    }
  }

  lemma HeadIsLeast(a: seq<real>, x: real)
    requires Ascending(a) && x in multiset(a)
    ensures a != [] && a[0] <= x
  {
    assert x in a;
  }

  lemma {:induction false} AscendingIsUnique(a: seq<real>, b: seq<real>)
    requires Ascending(a) && Ascending(b) && multiset(a) == multiset(b)
    ensures a == b
  {
    if a == [] {
      assert |multiset(b)| == 0;
    } else {
      assert a[0] in multiset(a);
      HeadIsLeast(b, a[0]);
      assert b[0] in multiset(b);
      HeadIsLeast(a, b[0]);
      SameTails(a, b);
      AscendingIsUnique(a[1..], b[1..]);
      assert a == [a[0]] + a[1..] && b == [b[0]] + b[1..];
    }
  }

  lemma SameTails(a: seq<real>, b: seq<real>)
    requires a != [] && b != [] && a[0] == b[0] && multiset(a) == multiset(b)
    ensures multiset(a[1..]) == multiset(b[1..])
  {
    assert a == [a[0]] + a[1..] && b == [b[0]] + b[1..];
    assert multiset(a) == multiset([a[0]]) + multiset(a[1..]);
    assert multiset(b) == multiset([b[0]]) + multiset(b[1..]);
    assert multiset(a[1..]) == multiset(a) - multiset([a[0]]);
    assert multiset(b[1..]) == multiset(b) - multiset([b[0]]);
  }

  // ----- interpolation -----

  function LowerIndex(xs: seq<real>, pos: real): (i: nat)
    requires 0.0 <= pos <= (|xs| - 1) as real
    ensures i < |xs| && i as real <= pos < i as real + 1.0
  {
    pos.Floor
  }

  function UpperIndex(xs: seq<real>, pos: real): (i: nat)
    requires 0.0 <= pos <= (|xs| - 1) as real
    ensures LowerIndex(xs, pos) <= i < |xs|
  {
    var next := LowerIndex(xs, pos) + 1;
    if next < |xs| then next else |xs| - 1
  }

  function Mix(a: real, b: real, w: real): real { a * (1.0 - w) + b * w }

  function Interpolate(xs: seq<real>, pos: real): real
    requires 0.0 <= pos <= (|xs| - 1) as real
  {
    var lower := LowerIndex(xs, pos);
    Mix(xs[lower], xs[UpperIndex(xs, pos)], pos - lower as real)
  }

  /** The position of a percentile among n sorted values. */
  function Position(n: nat, pct: real): (pos: real)
    requires n > 0 && 0.0 <= pct <= 1.0
    ensures 0.0 <= pos <= (n - 1) as real
  {
    MulMonotone(pct, 1.0, (n - 1) as real);
    MulNonNegative(pct, (n - 1) as real);
    (n - 1) as real * pct
  }

  function Percentile(values: seq<real>, pct: real): real
    requires values != [] && 0.0 <= pct <= 1.0
  {
    var ordered := Sorted(values);
    if |ordered| == 1 then ordered[0] else Interpolate(ordered, Position(|ordered|, pct))
  }

  lemma MulNonNegative(a: real, b: real)
    requires 0.0 <= a && 0.0 <= b
    ensures 0.0 <= a * b
  {
  }

  lemma MulMonotone(a: real, b: real, c: real)
    requires a <= b && 0.0 <= c
    ensures a * c <= b * c
  {
    MulNonNegative(b - a, c);
    assert (b - a) * c == b * c - a * c;
  }

  lemma PositionMonotone(n: nat, p: real, q: real)
    requires n > 0 && 0.0 <= p <= q <= 1.0
    ensures Position(n, p) <= Position(n, q)
  {
    MulMonotone(p, q, (n - 1) as real);
  }

  /** A mixture lies between its ends and grows with its weight and with both ends. */
  lemma MixBounds(a: real, b: real, w: real)
    requires a <= b && 0.0 <= w <= 1.0
    ensures a <= Mix(a, b, w) <= b
  {
    MulNonNegative(b - a, w);
    MulNonNegative(b - a, 1.0 - w);
    assert Mix(a, b, w) - a == (b - a) * w && b - Mix(a, b, w) == (b - a) * (1.0 - w);
  }

  lemma MixWeight(a: real, b: real, v: real, w: real)
    requires a <= b && v <= w
    ensures Mix(a, b, v) <= Mix(a, b, w)
  {
    MulNonNegative(b - a, w - v);
    assert Mix(a, b, w) - Mix(a, b, v) == (b - a) * (w - v);
  }

  lemma MixEnds(a: real, b: real, a': real, b': real, w: real)
    requires a <= a' && b <= b' && 0.0 <= w <= 1.0
    ensures Mix(a, b, w) <= Mix(a', b', w)
  {
    hide Mix;
    MixLeft(a, a', b, w);
    MixRight(a', b, b', w);
  }

  lemma MixLeft(a: real, a': real, b: real, w: real)
    requires a <= a' && w <= 1.0
    ensures Mix(a, b, w) <= Mix(a', b, w)
  {
    MulNonNegative(a' - a, 1.0 - w);
    assert Mix(a', b, w) - Mix(a, b, w) == (a' - a) * (1.0 - w);
  }

  lemma MixRight(a: real, b: real, b': real, w: real)
    requires b <= b' && 0.0 <= w
    ensures Mix(a, b, w) <= Mix(a, b', w)
  {
    MulNonNegative(b' - b, w);
    assert Mix(a, b', w) - Mix(a, b, w) == (b' - b) * w;
  }

  lemma InterpolateBounds(xs: seq<real>, pos: real)
    requires Ascending(xs) && 0.0 <= pos <= (|xs| - 1) as real
    ensures xs[LowerIndex(xs, pos)] <= Interpolate(xs, pos) <= xs[UpperIndex(xs, pos)]
  {
    hide Mix;
    var l := LowerIndex(xs, pos);
    assert l < UpperIndex(xs, pos) ==> xs[l] <= xs[UpperIndex(xs, pos)];
    MixBounds(xs[l], xs[UpperIndex(xs, pos)], pos - l as real);
  }

  /** Interpolation grows with the position, within a cell and across cells. */
  lemma InterpolateMonotone(xs: seq<real>, p: real, q: real)
    requires Ascending(xs) && 0.0 <= p <= q <= (|xs| - 1) as real
    ensures Interpolate(xs, p) <= Interpolate(xs, q)
  {
    hide Mix;
    var l, m := LowerIndex(xs, p), LowerIndex(xs, q);
    if l == m {
      assert l < UpperIndex(xs, p) ==> xs[l] <= xs[UpperIndex(xs, p)];
      MixWeight(xs[l], xs[UpperIndex(xs, p)], p - l as real, q - l as real);
    } else {
      assert l as real < (m + 1) as real;
      InterpolateBounds(xs, p);
      InterpolateBounds(xs, q);
      assert UpperIndex(xs, p) == l + 1 <= m;
      assert UpperIndex(xs, p) < m ==> xs[UpperIndex(xs, p)] <= xs[m];
    }
  }

  lemma InterpolatePointwise(s: seq<real>, t: seq<real>, pos: real)
    requires |s| == |t| && forall i :: 0 <= i < |s| ==> s[i] <= t[i]
    requires 0.0 <= pos <= (|s| - 1) as real
    ensures Interpolate(s, pos) <= Interpolate(t, pos)
  {
    hide Mix;
    var l, u := LowerIndex(s, pos), UpperIndex(s, pos);
    assert LowerIndex(t, pos) == l && UpperIndex(t, pos) == u;
    MixEnds(s[l], s[u], t[l], t[u], pos - l as real);
  }

  /** The first and the last of the sorted values are the least and the greatest. */
  lemma SortedEnds(values: seq<real>)
    requires values != []
    ensures var s := Sorted(values);
            && s[0] in values && s[|s| - 1] in values
            && forall v :: v in values ==> s[0] <= v <= s[|s| - 1]
  {
    hide Sorted;
    var s := Sorted(values);
    SortedIsSorted(values);
    assert s[0] in multiset(s) && s[|s| - 1] in multiset(s);
    forall v | v in values ensures s[0] <= v <= s[|s| - 1] {
      assert v in multiset(s);
      var i :| 0 <= i < |s| && s[i] == v;
    }
  }

  lemma PercentileInSorted(values: seq<real>, pct: real)
    requires values != [] && 0.0 <= pct <= 1.0
    ensures var s := Sorted(values); s[0] <= Percentile(values, pct) <= s[|s| - 1]
  {
    hide Sorted, Interpolate, Position, LowerIndex, UpperIndex;
    var s := Sorted(values);
    if |s| > 1 {
      var pos := Position(|s|, pct);
      InterpolateBounds(s, pos);
      assert s[0] <= s[LowerIndex(s, pos)] && s[UpperIndex(s, pos)] <= s[|s| - 1];
    }
  }

  /** The percentile lies between the smallest and the largest value. */
  lemma PercentileBounds(values: seq<real>, pct: real)
    requires values != [] && 0.0 <= pct <= 1.0
    ensures exists lo :: lo in values && (forall v :: v in values ==> lo <= v) && lo <= Percentile(values, pct)
    ensures exists hi :: hi in values && (forall v :: v in values ==> v <= hi) && Percentile(values, pct) <= hi
  {
    hide Sorted, Percentile, Ascending;
    SortedEnds(values);
    PercentileInSorted(values, pct);
  }

  lemma PercentileMonotone(values: seq<real>, p: real, q: real)
    requires values != [] && 0.0 <= p <= q <= 1.0
    ensures Percentile(values, p) <= Percentile(values, q)
  {
    hide Interpolate, Position;
    var s := Sorted(values);
    SortedIsSorted(values);
    PositionMonotone(|s|, p, q);
    if |s| > 1 { InterpolateMonotone(s, Position(|s|, p), Position(|s|, q)); }
  }

  /** Raising values, compared rank by rank, never lowers a percentile. */
  lemma PercentileByRank(a: seq<real>, b: seq<real>, pct: real)
    requires a != [] && |a| == |b| && 0.0 <= pct <= 1.0
    requires |Sorted(a)| == |Sorted(b)| && forall i :: 0 <= i < |Sorted(a)| ==> Sorted(a)[i] <= Sorted(b)[i]
    ensures Percentile(a, pct) <= Percentile(b, pct)
  {
    hide Interpolate, Position;
    var s, t := Sorted(a), Sorted(b);
    SortedIsSorted(a);
    SortedIsSorted(b);
    if |s| > 1 { InterpolatePointwise(s, t, Position(|s|, pct)); }
  }

  predicate Below(xs: seq<real>, ys: seq<real>) {
    |xs| == |ys| && forall i :: 0 <= i < |xs| ==> xs[i] <= ys[i]
  }

  lemma BelowCons(x: real, xs: seq<real>, y: real, ys: seq<real>)
    requires x <= y && Below(xs, ys)
    ensures Below([x] + xs, [y] + ys)
  {
  }

  lemma InsertLeast(x: real, xs: seq<real>)
    requires Ascending([x] + xs)
    ensures Insert(x, xs) == [x] + xs
  {
    if xs != [] { assert ([x] + xs)[0] <= ([x] + xs)[1]; }
  }

  /** Inserting a larger value into a larger list gives a larger list. */
  lemma {:induction false} InsertBelow(x: real, xs: seq<real>, y: real, ys: seq<real>)
    requires x <= y && Below(xs, ys) && Ascending(xs) && Ascending(ys)
    ensures Below(Insert(x, xs), Insert(y, ys))
    decreases |xs|
  {
    if xs != [] {
      assert xs == [xs[0]] + xs[1..] && ys == [ys[0]] + ys[1..];
      var later, after := xs[0] < x, ys[0] < y;
      if !later && !after {
        BelowCons(x, xs, y, ys);
      } else if !later {
        InsertLeast(xs[0], xs[1..]);
        InsertBelow(xs[0], xs[1..], y, ys[1..]);
        BelowCons(x, xs, ys[0], Insert(y, ys[1..]));
      } else if !after {
        InsertLeast(ys[0], ys[1..]);
        InsertBelow(x, xs[1..], ys[0], ys[1..]);
        BelowCons(xs[0], Insert(x, xs[1..]), y, ys);
      } else {
        InsertBelow(x, xs[1..], y, ys[1..]);
        BelowCons(xs[0], Insert(x, xs[1..]), ys[0], Insert(y, ys[1..]));
      }
    }
  }

  /** Raising values where they stand raises the sorted values rank by rank. */
  lemma {:induction false} SortedBelow(xs: seq<real>, ys: seq<real>)
    requires Below(xs, ys)
    ensures Below(Sorted(xs), Sorted(ys))
  {
    hide Insert, Ascending;
    if xs != [] {
      SortedBelow(xs[1..], ys[1..]);
      InsertBelow(xs[0], Sorted(xs[1..]), ys[0], Sorted(ys[1..]));
    }
  }

  /** Raising any values, in whatever order they stand, never lowers a percentile. */
  lemma PercentilePointwise(a: seq<real>, b: seq<real>, pct: real)
    requires a != [] && Below(a, b) && 0.0 <= pct <= 1.0
    ensures Percentile(a, pct) <= Percentile(b, pct)
  {
    hide Sorted, Percentile;
    SortedBelow(a, b);
    PercentileByRank(a, b, pct);
  }

  lemma PercentileIgnoresOrder(a: seq<real>, b: seq<real>, pct: real)
    requires a != [] && b != [] && multiset(a) == multiset(b) && 0.0 <= pct <= 1.0
    ensures Percentile(a, pct) == Percentile(b, pct)
  {
    hide Interpolate, Sorted, Position;
    SortedIsSorted(a);
    SortedIsSorted(b);
    AscendingIsUnique(Sorted(a), Sorted(b));
  }

  // ----- the value itself -----

  lemma MixDifference(a: real, b: real, w: real)
    ensures Mix(a, b, w) - a == w * (b - a)
  {
  }

  /** Between two neighbouring ranks the percentile moves in proportion to the position, (n - 1) * pct. */
  lemma PercentileInterpolates(values: seq<real>, pct: real, i: nat)
    requires i + 1 < |values| && 0.0 <= pct <= 1.0
    requires i as real <= (|values| - 1) as real * pct <= (i + 1) as real
    ensures var s := Sorted(values);
            Percentile(values, pct) - s[i] == ((|values| - 1) as real * pct - i as real) * (s[i + 1] - s[i])
  {
    hide Sorted, Mix;
    var s := Sorted(values);
    var pos := Position(|s|, pct);
    var l := LowerIndex(s, pos);
    MixDifference(s[l], s[UpperIndex(s, pos)], pos - l as real);
    if pos == (i + 1) as real {
      assert l == i + 1 && pos - l as real == 0.0;
    } else {
      assert l == i && UpperIndex(s, pos) == i + 1;
    }
  }

  /** At the position of a rank the percentile is the value of that rank; one value is every percentile. */
  lemma PercentileAtRank(values: seq<real>, pct: real, k: nat)
    requires k < |values| && 0.0 <= pct <= 1.0 && (|values| - 1) as real * pct == k as real
    ensures Percentile(values, pct) == Sorted(values)[k]
  {
    hide Sorted, Interpolate, Position;
    if |values| > 1 {
      hide *;
      var s := Sorted(values);
      var i := if k == 0 then 0 else k - 1;
      PercentileInterpolates(values, pct, i);
      var w := (|values| - 1) as real * pct - i as real;
      assert w == if k == 0 then 0.0 else 1.0;
      WholeSteps(w, s[i + 1] - s[i]);
    }
  }

  lemma WholeSteps(w: real, d: real)
    ensures w == 0.0 ==> w * d == 0.0
    ensures w == 1.0 ==> w * d == d
  {
  }
}
