/**
 Energy per period (web/nasa_web/static/js/views/energy.js): differences of counter values at the period
 boundaries, clipped at zero.
 */
module Energy {
  import opened Basics
  import opened Storage

  /** A counter that never runs backwards; rows without a value are ignored. */
  predicate Counts(rows: Rows) {
    forall i, j :: 0 <= i < j < |rows| && rows[i].value.Some? && rows[j].value.Some?
      ==> rows[i].value.value <= rows[j].value.value
  }

  predicate Usable(rows: Rows, i: int) {
    0 <= i < |rows| && rows[i].value.Some?
  }

  /** The row whose value answers a query for time `t`: the last usable one up to `t`, else the first one. */
  ghost predicate Answers(rows: Rows, t: int, i: int) {
    && Usable(rows, i)
    && (rows[i].ts <= t ==> forall j :: Usable(rows, j) && rows[j].ts <= t ==> j <= i)
    && (rows[i].ts > t ==> forall j :: Usable(rows, j) ==> rows[j].ts > t && i <= j)
  }

  lemma {:induction false} UpToAnswer(rows: Rows, t: int) returns (i: int)
    requires Sorted(rows)
    ensures ValueUpTo(rows, t).Some? ==> Usable(rows, i) && rows[i].ts <= t && ValueUpTo(rows, t) == rows[i].value
                                         && forall j :: Usable(rows, j) && rows[j].ts <= t ==> j <= i
    ensures ValueUpTo(rows, t).None? ==> forall j :: Usable(rows, j) ==> rows[j].ts > t
    decreases |rows|
  {
    i := |rows| - 1;
    if rows != [] && !(Last(rows).ts <= t && Last(rows).value.Some?) {
      var init := rows[..|rows| - 1];
      i := UpToAnswer(init, t);
      assert forall j :: 0 <= j < |init| ==> init[j] == rows[j] && Usable(init, j) == Usable(rows, j);
    }
  }

  lemma {:induction false} AfterAnswer(rows: Rows, t: int) returns (i: int)
    requires Sorted(rows) && forall j :: Usable(rows, j) ==> rows[j].ts > t
    ensures ValueAfter(rows, t).Some? ==> Usable(rows, i) && ValueAfter(rows, t) == rows[i].value
                                          && forall j :: Usable(rows, j) ==> i <= j
    ensures ValueAfter(rows, t).None? ==> forall j :: !Usable(rows, j)
    decreases |rows|
  {
    i := 0;
    if rows != [] && !Usable(rows, 0) {
      var tail := rows[1..];
      assert forall j :: 0 <= j < |tail| ==> tail[j] == rows[j + 1] && Usable(tail, j) == Usable(rows, j + 1);
      i := AfterAnswer(tail, t);
      i := i + 1;
      assert forall j :: Usable(rows, j) ==> Usable(tail, j - 1);
    }
  }

  /** A query finds a value exactly if the entity has one at all. */
  lemma ValueAtAnswers(rows: Rows, t: int) returns (i: int)
    requires Sorted(rows)
    ensures ValueAt(rows, t).Some? ==> Answers(rows, t, i) && ValueAt(rows, t) == rows[i].value
    ensures ValueAt(rows, t).Some? <==> exists j :: Usable(rows, j)
  {
    hide ValueUpTo, ValueAfter, Sorted;
    i := UpToAnswer(rows, t);
    if ValueUpTo(rows, t).None? {
      i := AfterAnswer(rows, t);
    }
  }

  /** Later queries never find less, not even when the first of them falls before all samples. */
  lemma ValueAtMonotone(rows: Rows, t: int, t': int)
    requires Sorted(rows) && Counts(rows) && t <= t'
    ensures ValueAt(rows, t).Some? <==> ValueAt(rows, t').Some?
    ensures ValueAt(rows, t).Some? ==> ValueAt(rows, t).value <= ValueAt(rows, t').value
  {
    hide ValueAt;
    var i := ValueAtAnswers(rows, t);
    var j := ValueAtAnswers(rows, t');
  }

  /** The bar of one period, null when a boundary has no value. */
  function Delta(a: Option<real>, b: Option<real>): Option<real> {
    if a.Some? && b.Some? then Some(Max(0.0, b.value - a.value)) else None
  }

  /** The bar shows what the counter gained; a counter that fell shows zero, a missing value no bar. */
  lemma DeltaLaw(a: Option<real>, b: Option<real>)
    ensures a.None? || b.None? ==> Delta(a, b) == None
    ensures a.Some? && b.Some? && a.value <= b.value ==> Delta(a, b) == Some(b.value - a.value)
    ensures a.Some? && b.Some? && a.value >= b.value ==> Delta(a, b) == Some(0.0)
  {
  }

  /** The sum over all periods; periods without a value count nothing. */
  function Total(arr: seq<Option<real>>): real {
    if |arr| < 2 then 0.0
    else
      var n := |arr| - 1;
      var d := Delta(arr[n - 1], arr[n]);
      Total(arr[..n]) + (if d.Some? then d.value else 0.0)
  }

  predicate Answered(rows: Rows, ts: seq<int>, arr: seq<Option<real>>) {
    |arr| == |ts| && forall i :: 0 <= i < |ts| ==> arr[i] == ValueAt(rows, ts[i])
  }

  /** For a counter and boundaries in order, no bar is clipped and the bars add up to the last value minus the first. */
  lemma {:induction false} EnergyAddsUp(rows: Rows, ts: seq<int>, arr: seq<Option<real>>)
    requires Sorted(rows) && Counts(rows) && ts != [] && Answered(rows, ts, arr)
    requires forall i, j :: 0 <= i < j < |ts| ==> ts[i] <= ts[j]
    ensures (forall i :: 0 <= i < |arr| ==> arr[i].None?) || (forall i :: 0 <= i < |arr| ==> arr[i].Some?)
    ensures forall i :: 0 < i < |arr| && arr[i].Some? ==>
              arr[i - 1].Some? && Delta(arr[i - 1], arr[i]) == Some(arr[i].value - arr[i - 1].value)
    ensures Total(arr) == if arr[0].Some? then Last(arr).value - arr[0].value else 0.0
    decreases |ts|
  {
    hide ValueAt;
    var n := |ts| - 1;
    forall i | 0 <= i < |ts| ensures arr[0].Some? <==> arr[i].Some? {
      ValueAtMonotone(rows, ts[0], ts[i]);
    }
    forall i | 0 < i < |ts| && arr[i].Some?
      ensures arr[i - 1].Some? && Delta(arr[i - 1], arr[i]) == Some(arr[i].value - arr[i - 1].value)
    {
      ValueAtMonotone(rows, ts[i - 1], ts[i]);
    }
    if n > 0 {
      assert Answered(rows, ts[..n], arr[..n]);
      EnergyAddsUp(rows, ts[..n], arr[..n]);
    }
  }

  /** The bars add up one period at a time. */
  lemma {:induction false} TotalLaw(arr: seq<Option<real>>, a: Option<real>, b: Option<real>)
    ensures Total([]) == 0.0 && Total([a]) == 0.0
    ensures Total(arr + [a, b]) == Total(arr + [a]) + (if Delta(a, b).Some? then Delta(a, b).value else 0.0)
  {
    var all := arr + [a, b];
    assert all[..|all| - 1] == arr + [a];
    assert all[|all| - 2] == a && all[|all| - 1] == b;
  }

  /** For any counter with all values present, the bars add up to at least its gain, and to nothing negative. */
  lemma {:induction false} TotalCoversGain(arr: seq<Option<real>>)
    requires arr != [] && forall i :: 0 <= i < |arr| ==> arr[i].Some?
    ensures Total(arr) >= 0.0 && Total(arr) >= Last(arr).value - arr[0].value
    decreases |arr|
  {
    if |arr| > 1 {
      TotalCoversGain(arr[..|arr| - 1]);
    }
  }
}
