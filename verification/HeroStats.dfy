/** The aggregates of `/stats` and `/predict` (src/hero/controllers/heroes.rs:291-352, 451-500
    and 545-569). Reals are exact; `bucketStart` stands for the bucketing of instants. */
module HeroStats {
  import opened Wrappers
  import opened Ordered
  import opened Heroes
  import opened Filtering
  import opened Sorting
  import opened HeroStore
  import opened RowHistory

  // ---- one numeric field ----

  datatype NumericFieldStat = NumericFieldStat(
    count: nat, minimum: Option<real>, maximum: Option<real>, average: Option<real>, total: Option<real>)

  function SumOf(values: seq<real>): real {
    if values == [] then 0.0 else SumOf(values[..|values| - 1]) + values[|values| - 1]
  }

  function Least(values: seq<real>): real
    requires values != []
  {
    var last := values[|values| - 1];
    if |values| == 1 then last
    else
      var rest := Least(values[..|values| - 1]);
      if rest <= last then rest else last
  }

  function Greatest(values: seq<real>): real
    requires values != []
  {
    var last := values[|values| - 1];
    if |values| == 1 then last
    else
      var rest := Greatest(values[..|values| - 1]);
      if rest >= last then rest else last
  }

  function NumericStat(values: seq<real>): NumericFieldStat {
    if values == [] then NumericFieldStat(0, None, None, None, None)
    else NumericFieldStat(|values|, Some(Least(values)), Some(Greatest(values)),
                          Some(SumOf(values) / |values| as real), Some(SumOf(values)))
  }

  lemma {:induction false} Extremes(values: seq<real>)
    requires values != []
    ensures Least(values) in values && Greatest(values) in values
    ensures forall v :: v in values ==> Least(values) <= v <= Greatest(values)
  {
    var k := |values| - 1;
    assert values == values[..k] + [values[k]];
    if k > 0 { Extremes(values[..k]); }
  }

  lemma {:induction false} SumBounds(values: seq<real>, low: real, high: real)
    requires forall i :: 0 <= i < |values| ==> low <= values[i] <= high
    ensures low * |values| as real <= SumOf(values) <= high * |values| as real
  {
    if values != [] {
      var k := |values| - 1;
      SumBounds(values[..k], low, high);
      Stretch(low, k);
      Stretch(high, k);
    }
  }

  lemma Stretch(a: real, n: nat)
    ensures a * (n + 1) as real == a * n as real + a
  {}

  /** The minimum and maximum are values of the field, the average lies between them, and the
      total is the average times the count. */
  lemma NumericStatSound(values: seq<real>)
    ensures var s := NumericStat(values);
      && s.count == |values|
      && (s.total.Some? <==> values != [])
      && (values != [] ==>
          && s.minimum.value in values && s.maximum.value in values
          && (forall v :: v in values ==> s.minimum.value <= v <= s.maximum.value)
          && s.minimum.value <= s.average.value <= s.maximum.value
          && s.total.value == s.average.value * s.count as real)
  {
    if values != [] {
      Extremes(values);
      AverageBetween(values);
    }
  }

  lemma AverageBetween(values: seq<real>)
    requires values != []
    ensures var average := SumOf(values) / |values| as real;
      Least(values) <= average <= Greatest(values) && SumOf(values) == average * |values| as real
  {
    Extremes(values);
    forall i | 0 <= i < |values| ensures Least(values) <= values[i] <= Greatest(values) {
      assert values[i] in values;
    }
    SumBounds(values, Least(values), Greatest(values));
    Average(SumOf(values), |values|, Least(values), Greatest(values));
  }

  lemma Average(total: real, n: nat, low: real, high: real)
    requires n > 0 && low * n as real <= total <= high * n as real
    ensures low <= total / n as real <= high
    ensures total == total / n as real * n as real
  {}

  lemma {:induction false} SumJoins(v: seq<real>, w: seq<real>)
    ensures SumOf(v + w) == SumOf(v) + SumOf(w)
  {
    if w == [] {
      assert v + w == v;
    } else {
      var k := |w| - 1;
      assert (v + w)[..|v| + k] == v + w[..k];
      SumJoins(v, w[..k]);
    }
  }

  /** The total is the sum: of one value the value, of two lists together the sum of theirs. */
  lemma TotalIsSum(x: real, v: seq<real>, w: seq<real>)
    requires v != [] && w != []
    ensures NumericStat([x]).total == Some(x)
    ensures NumericStat(v + w).total == Some(NumericStat(v).total.value + NumericStat(w).total.value)
    ensures NumericStat(v + w).count == NumericStat(v).count + NumericStat(w).count
  {
    SumJoins(v, w);
    assert [x][..0] == [] && SumOf([x]) == SumOf([]) + x;
  }

  /** A record's value of a field, if the field is numeric and the record has one. */
  function NumericValue(hero: Hero, field: string): Option<real> {
    if field == "id" then Some(hero.id as real)
    else if field == "power_level" && hero.powerLevel.Some? then Some(hero.powerLevel.value as real)
    else None
  }

  /** The id is always there, the power level when the record has one, and no other field is
      numeric. */
  lemma NumericFields(hero: Hero, field: string)
    ensures NumericValue(hero, "id") == Some(hero.id as real)
    ensures hero.powerLevel.Some? ==> NumericValue(hero, "power_level") == Some(hero.powerLevel.value as real)
    ensures hero.powerLevel.None? ==> NumericValue(hero, "power_level") == None
    ensures field != "id" && field != "power_level" ==> NumericValue(hero, field) == None
  {}

  // ---- buckets ----

  type Buckets = Time -> Time

  /** What a record adds to its bucket; nothing if it has no value. */
  type Amount = Hero -> Option<real>

  function Worth(hero: Hero, amount: Amount): real {
    if amount(hero).Some? then amount(hero).value else 0.0
  }

  /** What the records of bucket `b` add up to. */
  function SumIn(records: seq<Hero>, bucketStart: Buckets, amount: Amount, b: Time): real {
    if records == [] then 0.0
    else
      var front, r := records[..|records| - 1], records[|records| - 1];
      SumIn(front, bucketStart, amount, b) + Spike(bucketStart(r.createdAt), Worth(r, amount))(b)
  }

  /** `v` at one bucket, nothing elsewhere. */
  function Spike(at: Time, v: real): Time -> real {
    (b: Time) => if b == at then v else 0.0
  }

  function SumAll(records: seq<Hero>, amount: Amount): real {
    if records == [] then 0.0
    else SumAll(records[..|records| - 1], amount) + Worth(records[|records| - 1], amount)
  }

  /** Whether bucket `b` has a record with a value. */
  ghost predicate Filled(records: seq<Hero>, bucketStart: Buckets, amount: Amount, b: Time) {
    exists r :: r in records && amount(r).Some? && bucketStart(r.createdAt) == b
  }

  /** The accumulating map: `*entry(start).or_insert(0.0) += value`, record by record. */
  function Accumulated(records: seq<Hero>, bucketStart: Buckets, amount: Amount): map<Time, real> {
    if records == [] then map[]
    else
      var sums := Accumulated(records[..|records| - 1], bucketStart, amount);
      AddTo(sums, bucketStart, amount, records[|records| - 1])
  }

  function AddTo(sums: map<Time, real>, bucketStart: Buckets, amount: Amount, r: Hero): map<Time, real> {
    if amount(r).None? then sums
    else
      var start := bucketStart(r.createdAt);
      sums[start := (if start in sums then sums[start] else 0.0) + amount(r).value]
  }

  lemma {:induction false} AccumulatedIs(records: seq<Hero>, bucketStart: Buckets, amount: Amount, b: Time)
    ensures b in Accumulated(records, bucketStart, amount) <==> Filled(records, bucketStart, amount, b)
    ensures b in Accumulated(records, bucketStart, amount)
      ==> Accumulated(records, bucketStart, amount)[b] == SumIn(records, bucketStart, amount, b)
    ensures b !in Accumulated(records, bucketStart, amount) ==> SumIn(records, bucketStart, amount, b) == 0.0
  {
    if records != [] {
      var front, r := records[..|records| - 1], records[|records| - 1];
      assert records == front + [r];
      AccumulatedIs(front, bucketStart, amount, b);
      var here := amount(r).Some? && bucketStart(r.createdAt) == b;
      assert Filled(records, bucketStart, amount, b) <==> Filled(front, bucketStart, amount, b) || here by {
        assert r in records;
        if x :| x in front && amount(x).Some? && bucketStart(x.createdAt) == b { assert x in records; }
      }
    }
  }

  // ---- conservation ----

  function Over(starts: seq<Time>, value: Time -> real): real {
    if starts == [] then 0.0
    else Over(starts[..|starts| - 1], value) + value(starts[|starts| - 1])
  }

  lemma {:induction false} OverAdds(starts: seq<Time>, f: Time -> real, g: Time -> real, h: Time -> real)
    requires forall b :: f(b) == g(b) + h(b)
    ensures Over(starts, f) == Over(starts, g) + Over(starts, h)
  {
    if starts != [] { OverAdds(starts[..|starts| - 1], f, g, h); }
  }

  lemma {:induction false} OverZero(starts: seq<Time>, f: Time -> real)
    requires forall b :: f(b) == 0.0
    ensures Over(starts, f) == 0.0
  {
    if starts != [] { OverZero(starts[..|starts| - 1], f); }
  }

  /** Over strictly ascending starts, one record counts in at most one bucket. */
  lemma {:induction false} OverSpike(starts: seq<Time>, at: Time, v: real)
    requires Ascending(starts)
    ensures Over(starts, Spike(at, v)) == if at in starts then v else 0.0
  {
    if starts != [] {
      var front, last := starts[..|starts| - 1], starts[|starts| - 1];
      assert starts == front + [last];
      assert last !in front;
      OverSpike(front, at, v);
    }
  }

  function BucketSums(records: seq<Hero>, bucketStart: Buckets, amount: Amount): Time -> real {
    (b: Time) => SumIn(records, bucketStart, amount, b)
  }

  /** Over any ascending list of buckets that misses no record with a value, the bucket sums
      add up to the sum over all records. */
  lemma {:induction false} BucketsConserve(starts: seq<Time>, records: seq<Hero>, bucketStart: Buckets,
                                           amount: Amount)
    requires Ascending(starts)
    requires forall r :: r in records && amount(r).Some? ==> bucketStart(r.createdAt) in starts
    ensures Over(starts, BucketSums(records, bucketStart, amount)) == SumAll(records, amount)
  {
    if records == [] {
      OverZero(starts, BucketSums(records, bucketStart, amount));
    } else {
      var front, r := records[..|records| - 1], records[|records| - 1];
      var spike := Spike(bucketStart(r.createdAt), Worth(r, amount));
      assert r in records;
      BucketsConserve(starts, front, bucketStart, amount);
      OverAdds(starts, BucketSums(records, bucketStart, amount), BucketSums(front, bucketStart, amount), spike);
      OverSpike(starts, bucketStart(r.createdAt), Worth(r, amount));
    }
  }

  // ---- the two series ----

  datatype Point<V> = Point(bucketStart: Time, value: V)

  function Starts<V>(series: seq<Point<V>>): (r: seq<Time>)
    ensures |r| == |series| && forall i :: 0 <= i < |r| ==> r[i] == series[i].bucketStart
  {
    seq(|series|, i requires 0 <= i < |series| => series[i].bucketStart)
  }

  /** Strictly ascending buckets, one for each that has a record with a value and no other,
      each with the sum of its records. */
  ghost predicate SeriesOf(series: seq<Point<real>>, records: seq<Hero>, bucketStart: Buckets, amount: Amount) {
    && Ascending(Starts(series))
    && (forall b :: b in Starts(series) <==> Filled(records, bucketStart, amount, b))
    && (forall i :: 0 <= i < |series| ==>
         series[i].value == SumIn(records, bucketStart, amount, series[i].bucketStart))
  }

  /** A map as the list its iterator yields. */
  function Listed<V>(m: map<Time, V>): (r: seq<Point<V>>)
    ensures Starts(r) == SortedKeys(m.Keys)
    ensures forall i :: 0 <= i < |r| ==> r[i].bucketStart in m && r[i].value == m[r[i].bucketStart]
  {
    var keys := SortedKeys(m.Keys);
    assert forall i :: 0 <= i < |keys| ==> keys[i] in keys;
    PointsAt(m, keys)
  }

  function PointsAt<V>(m: map<Time, V>, keys: seq<Time>): (r: seq<Point<V>>)
    requires forall i :: 0 <= i < |keys| ==> keys[i] in m
    ensures Starts(r) == keys
    ensures forall i :: 0 <= i < |r| ==> r[i] == Point(keys[i], m[keys[i]])
  {
    seq(|keys|, i requires 0 <= i < |keys| => Point(keys[i], m[keys[i]]))
  }

  /** The per-bucket sums of one field, as `/predict` forecasts from them. */
  method FieldSeries(records: seq<Hero>, field: string, bucketStart: Buckets)
    returns (series: seq<Point<real>>)
    ensures SeriesOf(series, records, bucketStart, (r: Hero) => NumericValue(r, field))
  {
    var amount := (r: Hero) => NumericValue(r, field);
    var sums: map<Time, real> := map[];
    for k := 0 to |records|
      invariant sums == Accumulated(records[..k], bucketStart, amount)
    {
      assert records[..k + 1][..k] == records[..k];
      var value := NumericValue(records[k], field);
      if value.Some? {
        var start := bucketStart(records[k].createdAt);
        sums := sums[start := (if start in sums then sums[start] else 0.0) + value.value];
      }
    }
    assert records[..|records|] == records;
    series := Listed(sums);
    ListedIsSeries(records, bucketStart, amount);
  }

  lemma ListedIsSeries(records: seq<Hero>, bucketStart: Buckets, amount: Amount)
    ensures SeriesOf(Listed(Accumulated(records, bucketStart, amount)), records, bucketStart, amount)
  {
    var sums := Accumulated(records, bucketStart, amount);
    var series := Listed(sums);
    forall b ensures b in Starts(series) <==> Filled(records, bucketStart, amount, b) {
      AccumulatedIs(records, bucketStart, amount, b);
    }
    forall i | 0 <= i < |series|
      ensures series[i].value == SumIn(records, bucketStart, amount, series[i].bucketStart)
    {
      AccumulatedIs(records, bucketStart, amount, series[i].bucketStart);
    }
  }

  /** A field's bucket sums add up to its sum over the records that have a value. */
  lemma SeriesConserves(series: seq<Point<real>>, records: seq<Hero>, bucketStart: Buckets, amount: Amount)
    requires SeriesOf(series, records, bucketStart, amount)
    ensures TotalOf(series) == SumAll(records, amount)
  {
    forall r | r in records && amount(r).Some? ensures bucketStart(r.createdAt) in Starts(series) {
      assert Filled(records, bucketStart, amount, bucketStart(r.createdAt));
    }
    BucketsConserve(Starts(series), records, bucketStart, amount);
    TotalIsOver(series, BucketSums(records, bucketStart, amount));
  }

  function TotalOf(series: seq<Point<real>>): real {
    if series == [] then 0.0 else TotalOf(series[..|series| - 1]) + series[|series| - 1].value
  }

  lemma {:induction false} TotalIsOver(series: seq<Point<real>>, f: Time -> real)
    requires forall i :: 0 <= i < |series| ==> series[i].value == f(series[i].bucketStart)
    ensures TotalOf(series) == Over(Starts(series), f)
  {
    if series != [] {
      var front := series[..|series| - 1];
      TotalIsOver(front, f);
      assert Starts(series)[..|series| - 1] == Starts(front);
    }
  }

  // ---- one field, aggregated twice ----

  /** `filter_map`: the values of the records that have one, in order. */
  function ValuesOf(records: seq<Hero>, amount: Amount): seq<real> {
    if records == [] then []
    else
      var k := |records| - 1;
      ValuesOf(records[..k], amount)
        + if amount(records[k]).Some? then [amount(records[k]).value] else []
  }

  function WithValue(records: seq<Hero>, amount: Amount): nat {
    if records == [] then 0
    else
      WithValue(records[..|records| - 1], amount)
        + if amount(records[|records| - 1]).Some? then 1 else 0
  }

  lemma {:induction false} ValuesAddUp(records: seq<Hero>, amount: Amount)
    ensures SumOf(ValuesOf(records, amount)) == SumAll(records, amount)
    ensures |ValuesOf(records, amount)| == WithValue(records, amount)
  {
    if records != [] {
      var k := |records| - 1;
      ValuesAddUp(records[..k], amount);
      var front := ValuesOf(records[..k], amount);
      if amount(records[k]).Some? {
        assert (front + [amount(records[k]).value])[..|front|] == front;
      } else {
        assert ValuesOf(records, amount) == front;
      }
    }
  }

  /** `/stats` and `/predict` agree on a field: its total is the sum over the records, which is
      what its bucket sums add up to, and its count is that of the records that have a value. */
  lemma StatIsSeriesTotal(records: seq<Hero>, amount: Amount, series: seq<Point<real>>, bucketStart: Buckets)
    requires SeriesOf(series, records, bucketStart, amount)
    ensures var stat := NumericStat(ValuesOf(records, amount));
      && stat.count == WithValue(records, amount)
      && (stat.count > 0 ==> stat.total == Some(SumAll(records, amount)) == Some(TotalOf(series)))
      && (stat.count == 0 ==> stat.total == None && TotalOf(series) == 0.0)
  {
    ValuesAddUp(records, amount);
    SeriesConserves(series, records, bucketStart, amount);
    assert SumOf([]) == 0.0;
  }

  // ---- counting records ----

  function One(hero: Hero): Option<real> { Some(1.0) }

  function Counts(series: seq<Point<nat>>): (r: seq<Point<real>>)
    ensures |r| == |series|
    ensures forall i :: 0 <= i < |r| ==> r[i] == Point(series[i].bucketStart, series[i].value as real)
  {
    seq(|series|, i requires 0 <= i < |series| => Point(series[i].bucketStart, series[i].value as real))
  }

  /** The counters after `records`: one to each record's bucket. */
  function Counters(records: seq<Hero>, bucketStart: Buckets): map<Time, nat> {
    if records == [] then map[]
    else
      var counts := Counters(records[..|records| - 1], bucketStart);
      var start := bucketStart(records[|records| - 1].createdAt);
      counts[start := (if start in counts then counts[start] else 0) + 1]
  }

  lemma {:induction false} CountersAreSums(records: seq<Hero>, bucketStart: Buckets)
    ensures Counters(records, bucketStart).Keys == Accumulated(records, bucketStart, One).Keys
    ensures forall b :: b in Counters(records, bucketStart) ==>
      && Counters(records, bucketStart)[b] > 0
      && Counters(records, bucketStart)[b] as real == Accumulated(records, bucketStart, One)[b]
  {
    if records != [] { CountersAreSums(records[..|records| - 1], bucketStart); }
  }

  method TimeSeries(records: seq<Hero>, bucketStart: Buckets) returns (series: seq<Point<nat>>)
    ensures SeriesOf(Counts(series), records, bucketStart, One)
    ensures forall i :: 0 <= i < |series| ==> series[i].value > 0
  {
    var counts: map<Time, nat> := map[];
    for k := 0 to |records|
      invariant counts == Counters(records[..k], bucketStart)
    {
      assert records[..k + 1][..k] == records[..k];
      var start := bucketStart(records[k].createdAt);
      counts := counts[start := (if start in counts then counts[start] else 0) + 1];
    }
    assert records[..|records|] == records;
    series := Listed(counts);
    CountersAreSums(records, bucketStart);
    SameListing(counts, Accumulated(records, bucketStart, One));
    ListedIsSeries(records, bucketStart, One);
  }

  lemma SameListing(counts: map<Time, nat>, sums: map<Time, real>)
    requires counts.Keys == sums.Keys
    requires forall b :: b in counts ==> counts[b] as real == sums[b]
    ensures Counts(Listed(counts)) == Listed(sums)
  {}

  lemma {:induction false} AllOnes(records: seq<Hero>)
    ensures SumAll(records, One) == |records| as real
  {
    if records != [] { AllOnes(records[..|records| - 1]); }
  }

  function TotalCount(series: seq<Point<nat>>): nat {
    if series == [] then 0 else TotalCount(series[..|series| - 1]) + series[|series| - 1].value
  }

  lemma {:induction false} TotalCountIs(series: seq<Point<nat>>)
    ensures TotalCount(series) as real == TotalOf(Counts(series))
  {
    if series != [] {
      TotalCountIs(series[..|series| - 1]);
      assert Counts(series)[..|series| - 1] == Counts(series[..|series| - 1]);
    }
  }

  /** Bucketing neither loses a record nor counts one twice. */
  lemma TimeSeriesConserves(series: seq<Point<nat>>, records: seq<Hero>, bucketStart: Buckets)
    requires SeriesOf(Counts(series), records, bucketStart, One)
    ensures TotalCount(series) == |records|
  {
    SeriesConserves(Counts(series), records, bucketStart, One);
    AllOnes(records);
    TotalCountIs(series);
  }

  /** A record alone falls into the bucket of its creation. */
  lemma SeriesOfOne(series: seq<Point<nat>>, hero: Hero, bucketStart: Buckets)
    requires SeriesOf(Counts(series), [hero], bucketStart, One)
    ensures series == [Point(bucketStart(hero.createdAt), 1)]
  {
    var b := bucketStart(hero.createdAt);
    TimeSeriesConserves(series, [hero], bucketStart);
    var starts := Starts(Counts(series));
    assert hero in [hero];
    assert Filled([hero], bucketStart, One, b);
    assert b in starts;
    forall i | 0 <= i < |starts| ensures starts[i] == b {
      assert starts[i] in starts;
    }
    assert starts[0] == b == starts[|starts| - 1];
    assert series[0].bucketStart == Counts(series)[0].bucketStart;
    assert series[..0] == [];
  }

  // ---- the series of `/stats` against its total ----

  /** The records that `/stats` aggregates. */
  function Aggregated(lower: Lowercase, t: Store, includeArchived: bool, cap: nat): seq<Hero> {
    ListOf(lower, t.rows, ListOptions(0, cap, includeArchived, false, [], []))
  }

  function TotalAt(lower: Lowercase, s: Store, includeArchived: bool): nat {
    CountOf(lower, s.rows, [], includeArchived, false)
  }

  /** A time series as `/stats` lists it at `t`. */
  ghost predicate SeriesAt(lower: Lowercase, t: Store, includeArchived: bool, cap: nat,
                           series: seq<Point<nat>>, bucketStart: Buckets)
  {
    SeriesOf(Counts(series), Aggregated(lower, t, includeArchived, cap), bucketStart, One)
  }

  /** `/stats` counts at one point, `s`, and lists at most `cap` records at a later one, `t`: its
      time series adds up to its total exactly when what is then listed is as many. */
  lemma SeriesCoversTotalExact(lower: Lowercase, s: Store, t: Store, includeArchived: bool, cap: nat,
                               series: seq<Point<nat>>, bucketStart: Buckets)
    requires SeriesAt(lower, t, includeArchived, cap, series, bucketStart)
    ensures var total, later := TotalAt(lower, s, includeArchived), TotalAt(lower, t, includeArchived);
      TotalCount(series) == total <==> (if later < cap then later else cap) == total
  {
    TimeSeriesConserves(series, Aggregated(lower, t, includeArchived, cap), bucketStart);
  }

  /** With nothing written in between: exactly when the total is within the cap. */
  lemma QuietSeriesExact(lower: Lowercase, s: Store, includeArchived: bool, cap: nat,
                         series: seq<Point<nat>>, bucketStart: Buckets)
    requires SeriesAt(lower, s, includeArchived, cap, series, bucketStart)
    ensures var total := TotalAt(lower, s, includeArchived);
      TotalCount(series) == total <==> total <= cap
  {
    SeriesCoversTotalExact(lower, s, s, includeArchived, cap, series, bucketStart);
  }

  /** With archived records included, whatever either backend does in between: exactly when the
      total is within the cap, and at it if a record was created meanwhile. */
  lemma BusySeriesExact(lower: Lowercase, s: Store, t: Store, cap: nat,
                        series: seq<Point<nat>>, bucketStart: Buckets)
    requires Keyed(s) && Evolved(s, t)
    requires SeriesAt(lower, t, true, cap, series, bucketStart)
    ensures var total := TotalAt(lower, s, true);
      TotalCount(series) == total <==> total <= cap && (total == cap || t.nextId == s.nextId)
  {
    SeriesCoversTotalExact(lower, s, t, true, cap, series, bucketStart);
    AllRowsGrow(lower, s, t);
  }

  /** The one way to fail: over the cap, only the cap is listed. */
  lemma SeriesOverCap(lower: Lowercase, s: Store, includeArchived: bool, cap: nat,
                      series: seq<Point<nat>>, bucketStart: Buckets)
    requires SeriesAt(lower, s, includeArchived, cap, series, bucketStart)
    requires cap < TotalAt(lower, s, includeArchived)
    ensures TotalCount(series) == cap < TotalAt(lower, s, includeArchived)
  {
    TimeSeriesConserves(series, Aggregated(lower, s, includeArchived, cap), bucketStart);
  }

  /** The other: within the cap, a record created between the count and the list is listed but
      not counted. */
  lemma SeriesAfterCreate(lower: Lowercase, s: Store, op: Op, includeArchived: bool, cap: nat,
                          series: seq<Point<nat>>, bucketStart: Buckets)
    requires Keyed(s) && op.Create? && CanStep(s, op)
    requires SeriesAt(lower, After(lower, s, op), includeArchived, cap, series, bucketStart)
    requires TotalAt(lower, s, includeArchived) < cap
    ensures TotalCount(series) == TotalAt(lower, s, includeArchived) + 1
  {
    var t := After(lower, s, op);
    TimeSeriesConserves(series, Aggregated(lower, t, includeArchived, cap), bucketStart);
    OneMore(lower, s, op, includeArchived);
  }

  lemma OneMore(lower: Lowercase, s: Store, op: Op, includeArchived: bool)
    requires Keyed(s) && op.Create? && CanStep(s, op)
    ensures TotalAt(lower, After(lower, s, op), includeArchived) == TotalAt(lower, s, includeArchived) + 1
  {
    var t := After(lower, s, op);
    var before := Selected(lower, s.rows, [], includeArchived, false);
    var after := Selected(lower, t.rows, [], includeArchived, false);
    Unfiltered(lower, s.rows);
    Unfiltered(lower, t.rows);
    forall id ensures id in after <==> id in before || id in {s.nextId} {
      assert id in s.rows ==> id < s.nextId && t.rows[id] == s.rows[id];
    }
    JoinSize(after, before, {s.nextId});
  }
}
