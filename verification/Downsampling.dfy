/**
 The aggregated history is a faithful, bounded summary of the window: a partition into buckets whose extremes
 are the extremes of the samples.
 */
module Downsampling {
  import opened Basics
  import opened Storage

  function Members(bs: seq<Bucket>): Rows {
    if bs == [] then [] else Members(bs[..|bs| - 1]) + Last(bs).members
  }

  /** Buckets in ascending order, none empty, each holding exactly the samples of its stretch of time. */
  predicate Partition(bs: seq<Bucket>, width: int)
    requires width > 0
  {
    && (forall i :: 0 <= i < |bs| ==> bs[i].members != [])
    && (forall i, k :: 0 <= i < |bs| && 0 <= k < |bs[i].members| ==> Quotient(bs[i].members[k].ts, width) * width == bs[i].b)
    && (forall i, j :: 0 <= i < j < |bs| ==> bs[i].b < bs[j].b)
  }

  lemma Cancel(a: int, b: int, width: int)
    requires width > 0 && a * width < b * width
    ensures a < b
  {
  }

  lemma Scale(a: int, b: int, width: int)
    requires width > 0 && a <= b
    ensures a * width <= b * width
  {
  }

  lemma Floor(a: int, width: int)
    requires width > 0
    ensures a / width * width <= a < (a / width + 1) * width
  {
    var q := a / width;
    assert a == q * width + a % width;
    assert (q + 1) * width == q * width + width;
  }

  lemma FloorMonotone(a: int, b: int, width: int)
    requires width > 0 && a <= b
    ensures a / width <= b / width
  {
    Floor(a, width);
    Floor(b, width);
    Cancel(a / width, b / width + 1, width);
  }

  lemma QuotientMonotone(a: int, b: int, width: int)
    requires width > 0 && a <= b
    ensures Quotient(a, width) <= Quotient(b, width)
    ensures Quotient(a, width) * width <= Quotient(b, width) * width
  {
    if a >= 0 {
      FloorMonotone(a, b, width);
    } else if b < 0 {
      FloorMonotone(-b, -a, width);
    } else {
      FloorMonotone(0, b, width);
      FloorMonotone(0, -a, width);
    }
    Scale(Quotient(a, width), Quotient(b, width), width);
  }

  /** A sample at or behind the last bucket either joins it or opens the next one. */
  lemma PartitionGrows(bs: seq<Bucket>, s: Sample, width: int)
    requires width > 0 && Partition(bs, width) && bs != [] && Last(bs).b == Quotient(s.ts, width) * width
    ensures Partition(bs[|bs| - 1 := Bucket(Last(bs).b, Last(bs).members + [s])], width)
  {
    hide Quotient;
  }

  lemma PartitionExtends(bs: seq<Bucket>, s: Sample, width: int)
    requires width > 0 && Partition(bs, width) && (bs != [] ==> Last(bs).b < Quotient(s.ts, width) * width)
    ensures Partition(bs + [Bucket(Quotient(s.ts, width) * width, [s])], width)
  {
    hide Quotient;
  }

  lemma MembersGrow(bs: seq<Bucket>, b: int, s: Sample)
    requires bs != []
    ensures Members(bs[|bs| - 1 := Bucket(b, Last(bs).members + [s])]) == Members(bs) + [s]
    ensures Members(bs + [Bucket(b, [s])]) == Members(bs) + [s]
  {
    var n := |bs| - 1;
    var grown := bs[n := Bucket(b, Last(bs).members + [s])];
    assert grown[..n] == bs[..n];
    assert Members(bs[..n]) + (Last(bs).members + [s]) == Members(bs) + [s];
    assert (bs + [Bucket(b, [s])])[..n + 1] == bs;
  }

  /** Every sample of the window falls into exactly one bucket, in order. */
  lemma {:induction false} BucketsPartition(rows: Rows, width: int)
    requires Sorted(rows) && width > 0
    ensures Partition(Buckets(rows, width), width)
    ensures Members(Buckets(rows, width)) == rows
    ensures rows != [] ==> Buckets(rows, width) != [] && Last(Buckets(rows, width)).b == Quotient(Last(rows).ts, width) * width
    decreases |rows|
  {
    hide Quotient, Partition, Members;
    if rows == [] {
      NoBuckets(width);
    } else {
      var n := |rows| - 1;
      var before, s := Buckets(rows[..n], width), rows[n];
      BucketsPartition(rows[..n], width);
      assert rows == rows[..n] + [s];
      if n > 0 {
        QuotientMonotone(rows[n - 1].ts, s.ts, width);
        MembersGrow(before, Quotient(s.ts, width) * width, s);
        if Last(before).b == Quotient(s.ts, width) * width {
          PartitionGrows(before, s, width);
        } else {
          PartitionExtends(before, s, width);
        }
      } else {
        PartitionExtends([], s, width);
        OneBucket(Quotient(s.ts, width) * width, s);
        assert rows == [s] && rows[..0] == [] && before == [];
        assert [] + [Bucket(Quotient(s.ts, width) * width, [s])] == [Bucket(Quotient(s.ts, width) * width, [s])];
      }
    }
  }

  lemma NoBuckets(width: int)
    requires width > 0
    ensures Partition([], width) && Members([]) == []
  {
  }

  lemma OneBucket(b: int, s: Sample)
    ensures Members([Bucket(b, [s])]) == [s]
  {
    assert [Bucket(b, [s])][..0] == [];
  }

  // ---------------------------------------------------------------- extremes and averages

  lemma {:induction false} MinimumIsLeast(vs: seq<real>)
    ensures vs != [] <==> Minimum(vs).Some?
    ensures vs != [] ==> Minimum(vs).value in vs && forall v :: v in vs ==> Minimum(vs).value <= v
  {
    if vs != [] {
      MinimumIsLeast(vs[..|vs| - 1]);
      assert vs == vs[..|vs| - 1] + [Last(vs)];
    }
  }

  lemma {:induction false} MaximumIsGreatest(vs: seq<real>)
    ensures vs != [] <==> Maximum(vs).Some?
    ensures vs != [] ==> Maximum(vs).value in vs && forall v :: v in vs ==> v <= Maximum(vs).value
  {
    if vs != [] {
      MaximumIsGreatest(vs[..|vs| - 1]);
      assert vs == vs[..|vs| - 1] + [Last(vs)];
    }
  }

  lemma {:induction false} SumBounds(vs: seq<real>, lo: real, hi: real)
    requires forall v :: v in vs ==> lo <= v <= hi
    ensures lo * |vs| as real <= Sum(vs) <= hi * |vs| as real
  {
    if vs != [] {
      var n := |vs| - 1;
      forall v | v in vs[..n] ensures v in vs && lo <= v <= hi {
      }
      assert Last(vs) in vs;
      SumBounds(vs[..n], lo, hi);
      Distribute(lo, n as real);
      Distribute(hi, n as real);
    }
  }

  lemma Distribute(x: real, n: real)
    ensures x * (n + 1.0) == x * n + x
  {
  }

  /** The average of a bucket lies between its extremes. */
  lemma AverageBetween(vs: seq<real>)
    requires vs != []
    ensures Minimum(vs).Some? && Average(vs).Some? && Maximum(vs).Some?
    ensures Minimum(vs).value <= Average(vs).value <= Maximum(vs).value
  {
    hide Minimum, Maximum, Sum;
    MinimumIsLeast(vs);
    MaximumIsGreatest(vs);
    var lo, hi, n := Minimum(vs).value, Maximum(vs).value, |vs| as real;
    SumBounds(vs, lo, hi);
    CancelReal(lo, Sum(vs) / n, n);
    CancelReal(Sum(vs) / n, hi, n);
  }

  lemma CancelReal(x: real, y: real, n: real)
    requires n > 0.0 && x * n <= y * n
    ensures x <= y
  {
  }

  lemma {:induction false} ValuesAppend(a: Rows, b: Rows)
    ensures Values(a + b) == Values(a) + Values(b)
    decreases |b|
  {
    if b == [] {
      assert a + b == a;
    } else {
      var n := |b| - 1;
      ValuesAppend(a, b[..n]);
      assert (a + b)[..|a| + n] == a + b[..n];
    }
  }

  function Lows(ps: seq<Point>): seq<real> {
    if ps == [] then [] else Lows(ps[..|ps| - 1]) + (if Last(ps).lo.Some? then [Last(ps).lo.value] else [])
  }

  function Highs(ps: seq<Point>): seq<real> {
    if ps == [] then [] else Highs(ps[..|ps| - 1]) + (if Last(ps).hi.Some? then [Last(ps).hi.value] else [])
  }

  lemma LowsOfLast(ps: seq<Point>)
    requires ps != []
    ensures Minimum(Lows(ps)) == Least(Minimum(Lows(ps[..|ps| - 1])), Last(ps).lo)
  {
    hide Minimum;
    var lows := Lows(ps[..|ps| - 1]);
    if Last(ps).lo.Some? {
      MinimumAppend(lows, [Last(ps).lo.value]);
      SingleExtremes(Last(ps).lo.value);
    } else {
      assert lows + [] == lows;
    }
  }

  lemma HighsOfLast(ps: seq<Point>)
    requires ps != []
    ensures Maximum(Highs(ps)) == Greatest(Maximum(Highs(ps[..|ps| - 1])), Last(ps).hi)
  {
    hide Maximum;
    var highs := Highs(ps[..|ps| - 1]);
    if Last(ps).hi.Some? {
      MaximumAppend(highs, [Last(ps).hi.value]);
      SingleExtremes(Last(ps).hi.value);
    } else {
      assert highs + [] == highs;
    }
  }

  lemma BucketPointsPrefix(bs: seq<Bucket>, start: int)
    requires bs != []
    ensures BucketPoints(bs, start)[..|bs| - 1] == BucketPoints(bs[..|bs| - 1], start)
    ensures Last(BucketPoints(bs, start)) == BucketPoint(Last(bs), start)
  {
    hide BucketPoint;
  }

  lemma NoExtremes(start: int)
    ensures BucketPoints([], start) == [] && Lows([]) == [] && Highs([]) == [] && Values(Members([])) == []
  {
  }

  /** The extremes over the bucket points are the extremes of the samples. */
  lemma {:induction false} LowsOfBuckets(bs: seq<Bucket>, start: int)
    ensures Minimum(Lows(BucketPoints(bs, start))) == Minimum(Values(Members(bs)))
    ensures Maximum(Highs(BucketPoints(bs, start))) == Maximum(Values(Members(bs)))
    decreases |bs|
  {
    hide Minimum, Maximum, Lows, Highs, Values, BucketPoints, Least, Greatest;
    if bs == [] {
      NoExtremes(start);
    } else {
      var n := |bs| - 1;
      LowsOfBuckets(bs[..n], start);
      BucketPointsPrefix(bs, start);
      LowsOfLast(BucketPoints(bs, start));
      HighsOfLast(BucketPoints(bs, start));
      ValuesAppend(Members(bs[..n]), bs[n].members);
      MinimumAppend(Values(Members(bs[..n])), Values(bs[n].members));
      MaximumAppend(Values(Members(bs[..n])), Values(bs[n].members));
    }
  }

  lemma SingleExtremes(v: real)
    ensures Minimum([v]) == Some(v) && Maximum([v]) == Some(v)
  {
    assert [v][..0] == [];
  }

  function Least(a: Option<real>, b: Option<real>): Option<real> {
    match (a, b)
    case (None, _) => b
    case (_, None) => a
    case (Some(x), Some(y)) => Some(Min(x, y))
  }

  function Greatest(a: Option<real>, b: Option<real>): Option<real> {
    match (a, b)
    case (None, _) => b
    case (_, None) => a
    case (Some(x), Some(y)) => Some(Max(x, y))
  }

  lemma {:induction false} MinimumAppend(a: seq<real>, b: seq<real>)
    ensures Minimum(a + b) == Least(Minimum(a), Minimum(b))
    decreases |b|
  {
    if b == [] {
      assert a + b == a;
    } else {
      var n := |b| - 1;
      MinimumAppend(a, b[..n]);
      assert (a + b)[..|a| + n] == a + b[..n];
    }
  }

  lemma {:induction false} MaximumAppend(a: seq<real>, b: seq<real>)
    ensures Maximum(a + b) == Greatest(Maximum(a), Maximum(b))
    decreases |b|
  {
    if b == [] {
      assert a + b == a;
    } else {
      var n := |b| - 1;
      MaximumAppend(a, b[..n]);
      assert (a + b)[..|a| + n] == a + b[..n];
    }
  }

  // ---------------------------------------------------------------- the number of points

  lemma WidthCovers(start: int, end: int, maxPoints: nat)
    requires maxPoints > 0
    ensures end - start <= BucketWidth(start, end, maxPoints) * maxPoints
  {
    var d := end - start;
    var q := -(-d / maxPoints);
    assert -d / maxPoints * maxPoints <= -d;
    assert q * maxPoints >= d;
    var w := BucketWidth(start, end, maxPoints);
    assert w >= q;
    assert w * maxPoints >= q * maxPoints;
  }

  /** A window no longer than `n` widths meets at most `n + 1` buckets. */
  lemma QuotientSpan(start: int, end: int, width: int, n: nat)
    requires width > 0 && 0 <= start <= end <= start + width * n
    ensures end / width <= start / width + n
  {
    Floor(start, width);
    Floor(end, width);
    assert (start / width + 1) * width + width * n == (start / width + n + 1) * width;
    Cancel(end / width, start / width + n + 1, width);
  }

  lemma {:induction false} BucketIndex(bs: seq<Bucket>, width: int, i: nat)
    requires width > 0 && Partition(bs, width) && i < |bs|
    ensures Quotient(bs[i].members[0].ts, width) >= Quotient(bs[0].members[0].ts, width) + i
  {
    hide Quotient;
    if i > 0 {
      BucketIndex(bs, width, i - 1);
      var a, b := Quotient(bs[i - 1].members[0].ts, width), Quotient(bs[i].members[0].ts, width);
      assert bs[i - 1].b < bs[i].b;
      assert a * width < b * width;
      Cancel(a, b, width);
    }
  }

  lemma {:induction false} MemberIsRow(bs: seq<Bucket>, i: nat)
    requires i < |bs| && bs[i].members != []
    ensures forall k :: 0 <= k < |bs[i].members| ==> bs[i].members[k] in Members(bs)
    decreases |bs|
  {
    var n := |bs| - 1;
    if i < n {
      MemberIsRow(bs[..n], i);
      assert bs[..n][i] == bs[i];
    }
  }

  lemma {:induction false} WindowMembers(rows: Rows, start: int, end: int)
    ensures forall s :: s in Between(rows, start, end) <==> s in rows && start <= s.ts <= end
  {
    if rows != [] {
      WindowMembers(rows[1..], start, end);
      assert rows == [rows[0]] + rows[1..];
    }
  }

  lemma {:induction false} WindowRows(rows: Rows, start: int, end: int)
    requires Sorted(rows)
    ensures Sorted(Between(rows, start, end))
    ensures forall s :: s in Between(rows, start, end) <==> s in rows && start <= s.ts <= end
  {
    WindowMembers(rows, start, end);
    if rows != [] {
      hide Sorted;
      SortedFirst(rows);
      WindowRows(rows[1..], start, end);
      SortedCons(rows[0], Between(rows[1..], start, end));
    }
  }

  /** The bucket points as `history` returns them. */
  function Summary(rows: Rows, start: int, end: int, maxPoints: nat): seq<Point>
    requires maxPoints > 0
  {
    BucketPoints(Buckets(Between(rows, start, end), BucketWidth(start, end, maxPoints)), start)
  }

  lemma BucketCount(window: Rows, start: int, end: int, maxPoints: nat)
    requires maxPoints > 0 && 0 <= start <= end && Sorted(window)
    requires forall s :: s in window ==> start <= s.ts <= end
    ensures |Buckets(window, BucketWidth(start, end, maxPoints))| <= maxPoints + 1
  {
    hide BucketWidth, Buckets;
    var width := BucketWidth(start, end, maxPoints);
    var bs := Buckets(window, width);
    BucketsPartition(window, width);
    if bs != [] {
      var last := |bs| - 1;
      BucketIndex(bs, width, last);
      MemberIsRow(bs, 0);
      MemberIsRow(bs, last);
      var first, final := bs[0].members[0], bs[last].members[0];
      assert start <= first.ts && final.ts <= end && final in window && first in window;
      QuotientMonotone(start, first.ts, width);
      QuotientMonotone(final.ts, end, width);
      WidthCovers(start, end, maxPoints);
      QuotientSpan(start, end, width, maxPoints);
    }
  }

  lemma BucketTimes(window: Rows, start: int, end: int, width: int, i: nat)
    requires width > 0 && 0 <= start <= end && Sorted(window)
    requires forall s :: s in window ==> start <= s.ts <= end
    requires i < |Buckets(window, width)|
    ensures var bs := Buckets(window, width);
            && start <= MaxInt(bs[i].b, start) <= end
            && (i > 0 ==> MaxInt(bs[i - 1].b, start) < MaxInt(bs[i].b, start))
  {
    hide Buckets;
    var bs := Buckets(window, width);
    BucketsPartition(window, width);
    MemberIsRow(bs, i);
    var s := bs[i].members[0];
    assert s in window;
    assert bs[i].b <= s.ts;
    if i > 0 {
      MemberIsRow(bs, i - 1);
      var r := bs[i - 1].members[0];
      assert r in window && bs[i - 1].b < bs[i].b;
      NextBucketIsLater(r.ts, bs[i - 1].b, bs[i].b, width, Quotient(r.ts, width), Quotient(s.ts, width));
    }
  }

  lemma NextBucketIsLater(t: int, b: int, b': int, width: int, q: int, q': int)
    requires width > 0 && t >= 0 && q == t / width && b == q * width && b' == q' * width && b < b'
    ensures t < b'
  {
    Cancel(q, q', width);
    assert (q + 1) * width <= q' * width;
    assert t < q * width + width;
  }

  // ---------------------------------------------------------------- sums, widths, texts

  /** The values of rows are their numbers, in order; rows without one have none. */
  lemma ValuesLaw(a: Rows, s: Sample, b: Rows)
    ensures Values([]) == []
    ensures Values(a + [s] + b) == Values(a) + (if s.value.Some? then [s.value.value] else []) + Values(b)
  {
    ValuesAppend(a + [s], b);
    ValuesAppend(a, [s]);
    assert [s][..0] == [];
    assert Values([s]) == [] + (if s.value.Some? then [s.value.value] else []);
  }

  /** Sums add up: nothing, one value, and the values of two lists. */
  lemma {:induction false} SumLaw(v: real, a: seq<real>, b: seq<real>)
    ensures Sum([]) == 0.0 && Sum([v]) == v && Sum(a + b) == Sum(a) + Sum(b)
    decreases |b|
  {
    assert [v][..0] == [];
    if b == [] {
      assert a + b == a;
    } else {
      var n := |b| - 1;
      SumLaw(v, a, b[..n]);
      assert (a + b)[..|a| + n] == a + b[..n];
    }
  }

  /** The bucket width is the least one with which `maxPoints` buckets cover the window, and at least a second. */
  lemma WidthIsLeast(start: int, end: int, maxPoints: nat)
    requires maxPoints > 0
    ensures var w := BucketWidth(start, end, maxPoints);
            w >= 1 && end - start <= w * maxPoints && (w == 1 || (w - 1) * maxPoints < end - start)
  {
    var d := end - start;
    var q := -d / maxPoints;
    WidthCovers(start, end, maxPoints);
    assert -d < (q + 1) * maxPoints by {
      Floor(-d, maxPoints);
    }
    assert (-q - 1) * maxPoints == -((q + 1) * maxPoints);
  }

  lemma FloorParts(a: int, q: int, width: int)
    requires width > 0 && a >= 0 && q * width <= a < (q + 1) * width
    ensures 0 <= q * width <= a < q * width + width
  {
    Distribute'(q, width);
    Cancel(0, q + 1, width);
    Scale(0, q, width);
  }

  lemma Distribute'(q: int, width: int)
    ensures (q + 1) * width == q * width + width && (-q) * width == -(q * width)
  {
  }

  /** Division cuts towards zero. */
  lemma QuotientTowardsZero(a: int, width: int)
    requires width > 0
    ensures a >= 0 ==> 0 <= Quotient(a, width) * width <= a < Quotient(a, width) * width + width
    ensures a < 0 ==> Quotient(a, width) * width - width < a <= Quotient(a, width) * width <= 0
  {
    var b := if a >= 0 then a else -a;
    var q := b / width;
    Floor(b, width);
    FloorParts(b, q, width);
    Distribute'(q, width);
    assert Quotient(a, width) == if a >= 0 then q else -q;
    hide Quotient;
  }

  /** Texts are compared at their first difference; an initial part is below what continues it. */
  lemma {:induction false} TextOrder(p: string, c: char, d: char, s: string, t: string)
    ensures !TextBelow(p, p) && TextBelow(p, p + [d] + t) && !TextBelow(p + [d] + t, p)
    ensures c != d ==> (TextBelow(p + [c] + s, p + [d] + t) <==> c < d)
    decreases |p|
  {
    var a, b := p + [c] + s, p + [d] + t;
    if p == [] {
      assert a[0] == c && b[0] == d;
    } else {
      TextOrder(p[1..], c, d, s, t);
      assert a[1..] == p[1..] + [c] + s && b[1..] == p[1..] + [d] + t && a[0] == b[0] == p[0];
    }
  }

  lemma {:induction false} NotBelow(a: string, b: string, c: string)
    requires !TextBelow(a, b) && !TextBelow(b, c)
    ensures !TextBelow(a, c)
  {
    if a != [] && b != [] && c != [] && a[0] == b[0] == c[0] {
      NotBelow(a[1..], b[1..], c[1..]);
    }
  }

  lemma {:induction false} BelowIsStrict(a: string, b: string)
    requires TextBelow(a, b)
    ensures !TextBelow(b, a)
  {
    if a != [] && b != [] && a[0] == b[0] {
      BelowIsStrict(a[1..], b[1..]);
    }
  }

  /** The text of a bucket is the greatest text in it; it has none only if none of its rows has. */
  lemma {:induction false} MaxTextIsGreatest(rows: Rows)
    ensures MaxText(rows).None? <==> forall s :: s in rows ==> s.text.None?
    ensures MaxText(rows).Some? ==>
      && (exists s :: s in rows && s.text == MaxText(rows))
      && forall s :: s in rows && s.text.Some? ==> !TextBelow(MaxText(rows).value, s.text.value)
    decreases |rows|
  {
    hide TextBelow;
    if rows != [] {
      var init, last := rows[..|rows| - 1], Last(rows);
      MaxTextIsGreatest(init);
      assert rows == init + [last];
      assert last in rows;
      forall s | s in rows && s.text.Some? && MaxText(rows).Some?
        ensures !TextBelow(MaxText(rows).value, s.text.value)
      {
        Compared(MaxText(init), last.text, s.text.value);
      }
    }
  }

  /** The greater of two optional texts is not below what the first is not below, nor below the second. */
  lemma Compared(m: Option<string>, t: Option<string>, s: string)
    ensures t.Some? && m.Some? && TextBelow(m.value, t.value) && !TextBelow(m.value, s) ==> !TextBelow(t.value, s)
    ensures t.Some? ==> !TextBelow(t.value, t.value)
  {
    if t.Some? {
      TextOrder(t.value, 'a', 'a', "", "");
      if m.Some? && TextBelow(m.value, t.value) && !TextBelow(m.value, s) {
        BelowIsStrict(m.value, t.value);
        NotBelow(t.value, m.value, s);
      }
    }
  }

  // ---------------------------------------------------------------- rounding

  /** The nearest integer, and of two equally near ones the even one. */
  lemma NearestLaw(x: real, n: int)
    ensures n == Nearest(x) <==> n as real - 0.5 <= x <= n as real + 0.5 && (x == n as real - 0.5 || x == n as real + 0.5 ==> n % 2 == 0)
  {
    var below := x.Floor;
    assert n < below ==> n as real + 1.0 <= below as real;
    assert n > below + 1 ==> n as real >= below as real + 2.0;
  }

  /** Four places: ten thousand times the rounded number is the integer nearest to ten thousand times the number. */
  lemma FourPlaces(x: real)
    ensures Round4(x) * 10000.0 == Nearest(x * 10000.0) as real
  {
    hide Nearest;
  }

  lemma NearestIsNear(x: real)
    ensures Nearest(x) as real - 0.5 <= x <= Nearest(x) as real + 0.5
  {
  }

  lemma NearestMonotone(x: real, y: real)
    requires x <= y
    ensures Nearest(x) <= Nearest(y)
  {
    assert x.Floor <= y.Floor;
  }

  lemma Quarters(n: int, y: real)
    requires n as real - 0.5 <= y * 10000.0 <= n as real + 0.5
    ensures n as real / 10000.0 - 0.00005 <= y <= n as real / 10000.0 + 0.00005
  {
  }

  lemma Round4Near(x: real)
    ensures Round4(x) - 0.00005 <= x <= Round4(x) + 0.00005
  {
    hide Nearest;
    NearestIsNear(x * 10000.0);
    Quarters(Nearest(x * 10000.0), x);
  }

  lemma Round4Monotone(x: real, y: real)
    requires x <= y
    ensures Round4(x) <= Round4(y)
  {
    hide Nearest;
    NearestMonotone(x * 10000.0, y * 10000.0);
  }

  /**
   A bucket without values has a point without values. Otherwise the extremes are those of its values, the exact
   average lies between them, and the point carries it rounded, off by at most half a unit of the fourth place.
   */
  predicate Summarises(p: Point, b: Bucket) {
    var vs := Values(b.members);
    p.text == MaxText(b.members) &&
    if vs == [] then p.v == p.lo == p.hi == None
    else
      && p.v.Some? && p.lo == Minimum(vs) && p.lo.Some? && p.hi == Maximum(vs) && p.hi.Some?
      && var mean := Sum(vs) / |vs| as real;
         && mean * |vs| as real == Sum(vs)
         && p.lo.value <= mean <= p.hi.value
         && p.v.value == Round4(mean) && p.v.value - 0.00005 <= mean <= p.v.value + 0.00005
         && Round4(p.lo.value) <= p.v.value <= Round4(p.hi.value)
  }

  lemma MeanTimesCount(sum: real, n: real)
    requires n > 0.0
    ensures sum / n * n == sum
  {
  }

  lemma PointSummarises(b: Bucket, start: int)
    ensures Summarises(BucketPoint(b, start), b)
  {
    hide Values, Minimum, Maximum, Sum, Round4, MaxText;
    var vs := Values(b.members);
    MinimumIsLeast(vs);
    MaximumIsGreatest(vs);
    if vs != [] {
      AverageBetween(vs);
      var mean := Sum(vs) / |vs| as real;
      MeanTimesCount(Sum(vs), |vs| as real);
      Round4Near(mean);
      Round4Monotone(Minimum(vs).value, mean);
      Round4Monotone(mean, Maximum(vs).value);
    }
  }

  /**
   The aggregated history of a window of non-negative timestamps: every sample in exactly one bucket, at most
   maxPoints + 2 points with the lead-in, strictly increasing times inside the window, the extremes of the
   samples, and each bucket summarised by its point.
   */
  lemma AggregatedHistory(rows: Rows, start: int, end: int, maxPoints: nat)
    requires Sorted(rows) && 0 <= start < end && maxPoints > 0 && |Between(rows, start, end)| > maxPoints
    ensures var window, ps := Between(rows, start, end), Summary(rows, start, end, maxPoints);
            var bs := Buckets(window, BucketWidth(start, end, maxPoints));
            && History(rows, start, end, maxPoints, true) == LeadIn(rows, start) + ps
            && Partition(bs, BucketWidth(start, end, maxPoints)) && Members(bs) == window && |ps| == |bs|
            && |History(rows, start, end, maxPoints, true)| <= maxPoints + 2
            && (forall i :: 0 <= i < |ps| ==> start <= ps[i].t <= end && ps[i].t == if bs[i].b < start then start else bs[i].b)
            && (forall i :: 0 < i < |ps| ==> ps[i - 1].t < ps[i].t)
            && Minimum(Lows(ps)) == Minimum(Values(window)) && Maximum(Highs(ps)) == Maximum(Values(window))
            && forall i :: 0 <= i < |ps| ==> Summarises(ps[i], bs[i])
  {
    hide Between, Buckets, BucketWidth, Partition, Minimum, Maximum, Average, Values, Sorted, Summarises, Lows, Highs, Members,
      MaxText, Before, Round4;
    var window, width := Between(rows, start, end), BucketWidth(start, end, maxPoints);
    var bs, ps := Buckets(window, width), Summary(rows, start, end, maxPoints);
    WindowRows(rows, start, end);
    BucketsPartition(window, width);
    BucketCount(window, start, end, maxPoints);
    LowsOfBuckets(bs, start);
    forall i | 0 <= i < |ps|
      ensures start <= ps[i].t <= end && (i > 0 ==> ps[i - 1].t < ps[i].t)
      ensures Summarises(ps[i], bs[i]) && ps[i].t == if bs[i].b < start then start else bs[i].b
    {
      BucketTimes(window, start, end, width, i);
      PointSummarises(bs[i], start);
    }
  }
}
