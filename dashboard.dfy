/**
  The aggregation layer of the bike-rental dashboard.

  Each function turns the hourly records selected by the date-range filter
  into one of the summary tables the dashboard plots. A pandas group-by is
  `Grouping.GroupBy`: one row per observed key, keys ascending. Means and
  ratios are exact reals; a division by zero, which yields NaN or infinity
  in the dashboard, is `None`.
 */
module Dashboard {
  import opened Wrappers
  import opened Keys
  import opened Grouping
  import opened Rental

  /** Groups backed by fewer samples than this are dropped from the relative-performance table. */
  const MinSampleSize: nat := 10

  // ===========================================================================
  // The date-range filter that selects the records every table is built from

  predicate InRange(start: Date, end: Date, r: Record)
  {
    DateLe(start, r.dteday) && DateLe(r.dteday, end)
  }

  function RangeMask(start: Date, end: Date): Record -> bool
  {
    (r: Record) => InRange(start, end, r)
  }

  /**
    The records dated from start to end, both inclusive, in their original
    order; nothing when start is after end.
   */
  function FilterDateRange(df: seq<Record>, start: Date, end: Date): (main: seq<Record>)
    ensures forall r :: r in main <==> r in df && DateLe(start, r.dteday) && DateLe(r.dteday, end)
    ensures forall r :: multiset(main)[r] == if InRange(start, end, r) then multiset(df)[r] else 0
    ensures Subsequence(main, df)
    ensures !DateLe(start, end) ==> main == []
  {
    var main := Where(df, RangeMask(start, end));
    WhereIsSubsequence(df, RangeMask(start, end));
    assert forall r :: multiset(main)[r] == if InRange(start, end, r) then multiset(df)[r] else 0 by {
      forall r ensures multiset(main)[r] == if InRange(start, end, r) then multiset(df)[r] else 0 {
        WhereCounts(df, RangeMask(start, end), r);
      }
    }
    assert !DateLe(start, end) ==> main == [] by {
      if main != [] {
        assert main[0] in main;
        DateLeTransitive(start, main[0].dteday, end);
      }
    }
    main
  }

  /** The earliest date in the data set. */
  function MinDate(df: seq<Record>): (d: Date)
    requires df != []
    ensures exists r :: r in df && r.dteday == d
    ensures forall r :: r in df ==> DateLe(d, r.dteday)
  {
    if |df| == 1 then df[0].dteday
    else
      var rest := MinDate(df[1..]);
      assert forall r :: r in df ==> r == df[0] || r in df[1..] by {
        assert df == [df[0]] + df[1..];
      }
      if DateLe(df[0].dteday, rest) then
        assert forall r :: r in df[1..] ==> DateLe(df[0].dteday, r.dteday) by {
          forall r | r in df[1..] ensures DateLe(df[0].dteday, r.dteday) {
            DateLeTransitive(df[0].dteday, rest, r.dteday);
          }
        }
        df[0].dteday
      else
        DateLeTotal(df[0].dteday, rest);
        rest
  }

  /** The latest date in the data set. */
  function MaxDate(df: seq<Record>): (d: Date)
    requires df != []
    ensures exists r :: r in df && r.dteday == d
    ensures forall r :: r in df ==> DateLe(r.dteday, d)
  {
    if |df| == 1 then df[0].dteday
    else
      var rest := MaxDate(df[1..]);
      assert forall r :: r in df ==> r == df[0] || r in df[1..] by {
        assert df == [df[0]] + df[1..];
      }
      if DateLe(rest, df[0].dteday) then
        assert forall r :: r in df[1..] ==> DateLe(r.dteday, df[0].dteday) by {
          forall r | r in df[1..] ensures DateLe(r.dteday, df[0].dteday) {
            DateLeTransitive(r.dteday, rest, df[0].dteday);
          }
        }
        df[0].dteday
      else
        DateLeTotal(df[0].dteday, rest);
        rest
  }

  /** The range the date picker starts with, from the first to the last date, keeps every record. */
  lemma DefaultRangeKeepsAll(df: seq<Record>)
    requires df != []
    ensures FilterDateRange(df, MinDate(df), MaxDate(df)) == df
  {
    WhereAll(df, RangeMask(MinDate(df), MaxDate(df)));
  }

  // ===========================================================================
  // create_relative_optimal

  datatype BaselineRow = BaselineRow(hr: int, baselineCnt: real)

  /** A record joined with its hour's baseline. */
  datatype MergedRecord = MergedRecord(rec: Record, baselineCnt: real)

  /** A joined record with its relative performance; `None` is NaN. */
  datatype ScoredRecord = ScoredRecord(rec: Record, baselineCnt: real, relativePerformance: Option<real>)

  /**
    One row of the relative-performance table: a (season, temperature,
    humidity, weather) group, the mean relative performance of its samples
    and their number (`None` when there are none: the mean of no values).
   */
  datatype PerfRow = PerfRow(season: int, tempBin: int, humidityBin: int, weathersit: int, mean: Option<real>, count: nat)

  function HourKey(r: Record): Key { [r.hr] }

  function PerfKey(r: Record): Key { [r.season, r.tempBin, r.humidityBin, r.weathersit] }

  function ScoredKey(s: ScoredRecord): Key { PerfKey(s.rec) }

  function PerfRowKey(row: PerfRow): Key { [row.season, row.tempBin, row.humidityBin, row.weathersit] }

  // Reference definitions, stated on the records directly.

  /** The records observed at hour h. */
  function AtHour(df: seq<Record>, h: int): seq<Record>
  {
    Members(df, HourKey, [h])
  }

  /** The total count of rentals at hour h. */
  function HourTotal(df: seq<Record>, h: int): int
  {
    Sum(AtHour(df, h), Cnt)
  }

  /**
    A record's count divided by the mean count of its hour, that is by
    HourTotal / |AtHour|; `None` (NaN) when the hour's mean is zero.
   */
  function RelativePerformanceOf(df: seq<Record>, r: Record): Option<real>
  {
    if HourTotal(df, r.hr) == 0 then None
    else Some((r.cnt * |AtHour(df, r.hr)|) as real / HourTotal(df, r.hr) as real)
  }

  /** 1 for a record whose relative performance is a number, 0 for NaN. */
  function SampleFlag(df: seq<Record>): Record -> int
  {
    (r: Record) => if HourTotal(df, r.hr) == 0 then 0 else 1
  }

  /** A record's relative performance, 0 where it is NaN (and not counted). */
  function SampleValue(df: seq<Record>): Record -> real
  {
    (r: Record) => match RelativePerformanceOf(df, r) case Some(v) => v case None => 0.0
  }

  /** The number of records of group k whose relative performance is a number. */
  function SampleCount(df: seq<Record>, k: Key): int
  {
    Sum(Members(df, PerfKey, k), SampleFlag(df))
  }

  /** The sum of those relative performances. */
  function SampleSum(df: seq<Record>, k: Key): real
  {
    SumReal(Members(df, PerfKey, k), SampleValue(df))
  }

  // The pipeline.

  /** Hour h occurs in the records. */
  ghost predicate HourObserved(df: seq<Record>, h: int)
  {
    exists r :: r in df && r.hr == h
  }

  /** The baseline table has a row for hour h. */
  ghost predicate HasBaseline(b: seq<BaselineRow>, h: int)
  {
    exists i :: 0 <= i < |b| && b[i].hr == h
  }

  function BaselineOf(g: Group<Record>): BaselineRow
    requires g.members != []
  {
    BaselineRow(g.members[0].hr, Mean(g.members, Cnt))
  }

  /** The mean count per hour of day (`groupby('hr')['cnt'].mean()`). */
  function HourlyBaseline(df: seq<Record>): seq<BaselineRow>
  {
    var gs := GroupBy(df, HourKey);
    seq(|gs|, i requires 0 <= i < |gs| => BaselineOf(gs[i]))
  }

  lemma HourlyBaselineRow(df: seq<Record>, i: nat)
    requires i < |HourlyBaseline(df)|
    ensures GroupBy(df, HourKey)[i].key == [HourlyBaseline(df)[i].hr]
    ensures AtHour(df, HourlyBaseline(df)[i].hr) != []
    ensures HourlyBaseline(df)[i].baselineCnt == Mean(AtHour(df, HourlyBaseline(df)[i].hr), Cnt)
  {
    var gs := GroupBy(df, HourKey);
    GroupMembersHaveKey(df, HourKey, i, gs[i].members[0]);
  }

  /**
    The baseline table has one row per observed hour, hours ascending, and
    each row holds the mean count of the records at its hour.
   */
  lemma HourlyBaselineCorrect(df: seq<Record>)
    ensures var b := HourlyBaseline(df);
      forall i, j :: 0 <= i < j < |b| ==> b[i].hr < b[j].hr
    ensures forall h :: HourObserved(df, h) <==> HasBaseline(HourlyBaseline(df), h)
    ensures var b := HourlyBaseline(df);
      forall i :: 0 <= i < |b| ==> AtHour(df, b[i].hr) != [] && b[i].baselineCnt == Mean(AtHour(df, b[i].hr), Cnt)
  {
    var gs := GroupBy(df, HourKey);
    var b := HourlyBaseline(df);
    forall i | 0 <= i < |b|
      ensures gs[i].key == [b[i].hr] && AtHour(df, b[i].hr) != []
      ensures b[i].baselineCnt == Mean(AtHour(df, b[i].hr), Cnt)
    {
      HourlyBaselineRow(df, i);
    }
    forall i, j | 0 <= i < j < |b| ensures b[i].hr < b[j].hr {
      LessOnSingle(b[i].hr, b[j].hr);
    }
    forall h ensures HourObserved(df, h) <==> HasBaseline(b, h) {
      if HourObserved(df, h) {
        var r :| r in df && r.hr == h;
        assert HourKey(r) == [h];
        assert Observed(df, HourKey, [h]);
        var i :| 0 <= i < |gs| && gs[i].key == [h];
        assert b[i].hr == h;
      }
      if HasBaseline(b, h) {
        var i :| 0 <= i < |b| && b[i].hr == h;
        assert Observed(df, HourKey, gs[i].key);
        var r :| r in df && HourKey(r) == gs[i].key;
        assert r.hr == h;
      }
    }
  }

  /** The baseline table has a row for hour h holding baseline v. */
  ghost predicate BaselineFor(b: seq<BaselineRow>, h: int, v: real)
  {
    exists i :: 0 <= i < |b| && b[i].hr == h && b[i].baselineCnt == v
  }

  /** The baseline of hour h, if the baseline table has that hour. */
  function LookupBaseline(b: seq<BaselineRow>, h: int): (v: Option<real>)
    ensures v.Some? <==> HasBaseline(b, h)
    ensures v.Some? ==> BaselineFor(b, h, v.value)
  {
    if b == [] then None
    else if b[0].hr == h then Some(b[0].baselineCnt)
    else
      var v := LookupBaseline(b[1..], h);
      assert forall i :: 0 < i < |b| ==> b[i] == b[1..][i - 1];
      v
  }

  /**
    The inner join of the records with the baseline table on `hr`, in the
    records' order. Each record takes the first baseline row of its hour, so
    this is the join only when the table's hours are distinct, as they are
    in the table HourlyBaseline builds; an inner merge with a repeated hour
    would keep one joined row per matching baseline row.
   */
  function MergeBaseline(df: seq<Record>, b: seq<BaselineRow>): (m: seq<MergedRecord>)
  {
    if df == [] then []
    else
      (match LookupBaseline(b, df[0].hr)
       case Some(v) => [MergedRecord(df[0], v)]
       case None => [])
      + MergeBaseline(df[1..], b)
  }

  /**
    When every record's hour has a baseline row, the join keeps every record,
    in order, and gives each one the baseline of its own hour.
   */
  lemma {:induction false} MergeKeepsEveryRecord(df: seq<Record>, b: seq<BaselineRow>)
    requires forall r :: r in df ==> HasBaseline(b, r.hr)
    ensures |MergeBaseline(df, b)| == |df|
    ensures forall i :: 0 <= i < |df| ==> MergeBaseline(df, b)[i].rec == df[i]
    ensures forall i :: 0 <= i < |df| ==> BaselineFor(b, df[i].hr, MergeBaseline(df, b)[i].baselineCnt)
  {
    if df != [] {
      var tail := df[1..];
      var rest := MergeBaseline(tail, b);
      assert forall r :: r in tail ==> r in df;
      MergeKeepsEveryRecord(tail, b);
      assert df[0] in df;
      var v := LookupBaseline(b, df[0].hr);
      var m := MergeBaseline(df, b);
      assert m == [MergedRecord(df[0], v.value)] + rest;
      forall i | 0 <= i < |df|
        ensures m[i].rec == df[i] && BaselineFor(b, df[i].hr, m[i].baselineCnt)
      {
        if i > 0 {
          assert m[i] == rest[i - 1] && df[i] == tail[i - 1];
        }
      }
    }
  }

  /** The `relative_performance` column: count over baseline, NaN where the baseline is zero. */
  function WithRelativePerformance(m: seq<MergedRecord>): (s: seq<ScoredRecord>)
    ensures |s| == |m|
  {
    seq(|m|, i requires 0 <= i < |m| =>
      ScoredRecord(m[i].rec, m[i].baselineCnt,
        if m[i].baselineCnt == 0.0 then None else Some(m[i].rec.cnt as real / m[i].baselineCnt)))
  }

  /** The records with their baselines and relative performances. */
  function Scored(df: seq<Record>): seq<ScoredRecord>
  {
    WithRelativePerformance(MergeBaseline(df, HourlyBaseline(df)))
  }

  lemma DivideByMean(c: real, total: real, n: real)
    requires n > 0.0 && total != 0.0
    ensures c / (total / n) == (c * n) / total
  {
    var b := total / n;
    assert b * n == total;
    assert b != 0.0;
    var x := c / b;
    assert x * b == c;
    assert x * total == c * n by {
      assert x * total == x * (b * n) == (x * b) * n;
    }
  }

  /** The joined records are the input records, each with the mean count of its hour. */
  lemma MergedMatchesInput(df: seq<Record>)
    ensures |MergeBaseline(df, HourlyBaseline(df))| == |df|
    ensures forall i :: 0 <= i < |df| ==>
      && MergeBaseline(df, HourlyBaseline(df))[i].rec == df[i]
      && AtHour(df, df[i].hr) != []
      && MergeBaseline(df, HourlyBaseline(df))[i].baselineCnt == Mean(AtHour(df, df[i].hr), Cnt)
  {
    var b := HourlyBaseline(df);
    HourlyBaselineCorrect(df);
    forall r | r in df ensures HasBaseline(b, r.hr) {
      assert HourObserved(df, r.hr);
    }
    MergeKeepsEveryRecord(df, b);
    var m := MergeBaseline(df, b);
    forall i | 0 <= i < |df|
      ensures AtHour(df, df[i].hr) != []
      ensures m[i].baselineCnt == Mean(AtHour(df, df[i].hr), Cnt)
    {
      assert BaselineFor(b, df[i].hr, m[i].baselineCnt);
      var j :| 0 <= j < |b| && b[j].hr == df[i].hr && b[j].baselineCnt == m[i].baselineCnt;
    }
  }

  /**
    A record's relative performance as the dashboard computes it, count over
    the hour's mean, is RelativePerformanceOf: NaN exactly where the mean is
    zero.
   */
  lemma ScoreAgreesWithReference(df: seq<Record>, r: Record, baseline: real)
    requires AtHour(df, r.hr) != [] && baseline == Mean(AtHour(df, r.hr), Cnt)
    ensures (if baseline == 0.0 then None else Some(r.cnt as real / baseline)) == RelativePerformanceOf(df, r)
  {
    var at := AtHour(df, r.hr);
    assert baseline == HourTotal(df, r.hr) as real / |at| as real;
    QuotientOfMean(r.cnt, |at|, HourTotal(df, r.hr), baseline);
  }

  /** Dividing c by the mean total / size is multiplying by size and dividing by total. */
  lemma QuotientOfMean(c: int, size: int, total: int, baseline: real)
    requires size > 0 && baseline == total as real / size as real
    ensures (if baseline == 0.0 then None else Some(c as real / baseline))
         == (if total == 0 then None else Some((c * size) as real / total as real))
  {
    var n, t := size as real, total as real;
    assert baseline * n == t;
    if total != 0 {
      assert t != 0.0 && baseline != 0.0;
      DivideByMean(c as real, t, n);
      assert baseline == t / n;
      assert (c * size) as real == c as real * n;
      assert c as real / baseline == (c * size) as real / t;
    } else {
      assert t == 0.0;
      assert baseline == 0.0 / n == 0.0;
    }
  }

  /**
    Each scored record is the input record at the same position, its
    baseline is the mean count of its hour, and its relative performance is
    its count divided by that mean (NaN where the mean is zero).
   */
  lemma ScoredMatchesReference(df: seq<Record>)
    ensures |Scored(df)| == |df|
    ensures forall i :: 0 <= i < |df| ==>
      && Scored(df)[i].rec == df[i]
      && AtHour(df, df[i].hr) != []
      && Scored(df)[i].baselineCnt == Mean(AtHour(df, df[i].hr), Cnt)
      && Scored(df)[i].relativePerformance == RelativePerformanceOf(df, df[i])
  {
    MergedMatchesInput(df);
    var m := MergeBaseline(df, HourlyBaseline(df));
    forall i | 0 <= i < |df|
      ensures Scored(df)[i].relativePerformance == RelativePerformanceOf(df, df[i])
    {
      ScoreAgreesWithReference(df, df[i], m[i].baselineCnt);
    }
  }

  /**
    A relative performance is NaN only for a record whose count is zero: the
    zero baseline arises from an hour without rentals, so the ratio is 0/0,
    never a non-zero count over zero (which would be counted as infinity).
   */
  lemma UndefinedOnlyForZeroCount(df: seq<Record>, r: Record)
    requires r in df && RelativePerformanceOf(df, r).None?
    ensures r.cnt == 0
  {
    assert r in AtHour(df, r.hr);
    SumBoundsEntry(AtHour(df, r.hr), Cnt, r);
  }

  function IsSample(s: ScoredRecord): int
  {
    if s.relativePerformance.Some? then 1 else 0
  }

  function SampleOf(s: ScoredRecord): real
  {
    match s.relativePerformance case Some(v) => v case None => 0.0
  }

  /** Mean and count of the group's relative performances, skipping NaN as pandas does. */
  function PerfRowOf(g: Group<ScoredRecord>): PerfRow
    requires g.members != []
  {
    var r := g.members[0].rec;
    var n := Sum(g.members, IsSample);
    SumNonneg(g.members, IsSample);
    PerfRow(r.season, r.tempBin, r.humidityBin, r.weathersit,
            if n == 0 then None else Some(SumReal(g.members, SampleOf) / n as real), n)
  }

  /** The relative-performance table before the sample-size filter. */
  function PerfTable(df: seq<Record>): seq<PerfRow>
  {
    var gs := GroupBy(Scored(df), ScoredKey);
    seq(|gs|, i requires 0 <= i < |gs| => PerfRowOf(gs[i]))
  }

  predicate EnoughSamples(row: PerfRow)
  {
    row.count >= MinSampleSize
  }

  /** `create_relative_optimal`: the groups backed by at least MinSampleSize samples. */
  function RelativeOptimal(df: seq<Record>): (t: seq<PerfRow>)
    ensures forall row :: row in t ==> row.count >= MinSampleSize && row.mean.Some?
  {
    Where(PerfTable(df), EnoughSamples)
  }

  /** Each row of the unfiltered table describes one observed group, with its samples' count and mean. */
  lemma PerfTableRows(df: seq<Record>, i: nat)
    requires i < |PerfTable(df)|
    ensures var row := PerfTable(df)[i];
      && Observed(df, PerfKey, PerfRowKey(row))
      && row.count == SampleCount(df, PerfRowKey(row))
      && row.mean == (if row.count == 0 then None else Some(SampleSum(df, PerfRowKey(row)) / row.count as real))
      && PerfRowKey(row) == GroupBy(Scored(df), ScoredKey)[i].key
  {
    var s := Scored(df);
    var gs := GroupBy(s, ScoredKey);
    var row := PerfTable(df)[i];
    var k := gs[i].key;
    GroupMembersHaveKey(s, ScoredKey, i, gs[i].members[0]);
    assert PerfRowKey(row) == k;
    ScoredMatchesReference(df);
    forall j | 0 <= j < |s|
      ensures ScoredKey(s[j]) == PerfKey(df[j])
      ensures IsSample(s[j]) == SampleFlag(df)(df[j])
      ensures SampleOf(s[j]) == SampleValue(df)(df[j])
    {
    }
    MembersCorrespond(s, df, ScoredKey, PerfKey, IsSample, SampleFlag(df), k);
    MembersCorrespondReal(s, df, ScoredKey, PerfKey, SampleOf, SampleValue(df), k);
    ObservedIffMembers(df, PerfKey, k);
  }

  /** Every group in the input is a row of the unfiltered table. */
  lemma PerfTableCoversGroups(df: seq<Record>, k: Key)
    requires Observed(df, PerfKey, k)
    ensures exists i :: 0 <= i < |PerfTable(df)| && PerfRowKey(PerfTable(df)[i]) == k
  {
    var s := Scored(df);
    var gs := GroupBy(s, ScoredKey);
    ScoredMatchesReference(df);
    var r :| r in df && PerfKey(r) == k;
    var j :| 0 <= j < |df| && df[j] == r;
    assert s[j] in s && ScoredKey(s[j]) == k;
    assert Observed(s, ScoredKey, k);
    var i :| 0 <= i < |gs| && gs[i].key == k;
    PerfTableRows(df, i);
  }

  /**
    The sample-size filter is exact: a (season, temperature, humidity,
    weather) group is in the result exactly when it occurs in the input and
    has at least MinSampleSize samples; each returned row carries its
    group's sample count and the mean relative performance of those samples.
   */
  lemma RelativeOptimalCorrect(df: seq<Record>)
    ensures forall k :: (Observed(df, PerfKey, k) && SampleCount(df, k) >= MinSampleSize)
                        <==> (exists row :: row in RelativeOptimal(df) && PerfRowKey(row) == k)
    ensures forall row :: row in RelativeOptimal(df) ==>
      && row.count >= MinSampleSize
      && row.count == SampleCount(df, PerfRowKey(row))
      && row.mean == Some(SampleSum(df, PerfRowKey(row)) / row.count as real)
  {
    var t := PerfTable(df);
    forall row | row in RelativeOptimal(df)
      ensures Observed(df, PerfKey, PerfRowKey(row))
      ensures row.count == SampleCount(df, PerfRowKey(row))
      ensures row.mean == Some(SampleSum(df, PerfRowKey(row)) / row.count as real)
    {
      var i :| 0 <= i < |t| && t[i] == row;
      PerfTableRows(df, i);
    }
    forall k | Observed(df, PerfKey, k) && SampleCount(df, k) >= MinSampleSize
      ensures exists row :: row in RelativeOptimal(df) && PerfRowKey(row) == k
    {
      PerfTableCoversGroups(df, k);
      var i :| 0 <= i < |t| && PerfRowKey(t[i]) == k;
      PerfTableRows(df, i);
      assert t[i] in RelativeOptimal(df);
    }
  }

  /** The result is in ascending group order, with no group twice. */
  lemma RelativeOptimalSorted(df: seq<Record>)
    ensures forall i, j :: 0 <= i < j < |RelativeOptimal(df)| ==>
      Less(PerfRowKey(RelativeOptimal(df)[i]), PerfRowKey(RelativeOptimal(df)[j]))
  {
    var t := PerfTable(df);
    forall i, j | 0 <= i < j < |t| ensures Less(PerfRowKey(t[i]), PerfRowKey(t[j])) {
      PerfTableRows(df, i);
      PerfTableRows(df, j);
    }
    WhereKeepsOrder(t, EnoughSamples, (a: PerfRow, b: PerfRow) => Less(PerfRowKey(a), PerfRowKey(b)));
  }

  // ===========================================================================
  // create_hourly_usage

  /** The weekend test of the `is_weekend` column. */
  predicate IsWeekendDay(weekday: string)
  {
    weekday == "Saturday" || weekday == "Sunday"
  }

  /** A record with the `is_weekend` column the function adds to its frame. */
  datatype FlaggedRecord = FlaggedRecord(rec: Record, isWeekend: bool)

  /** The frame extended with the `is_weekend` column. */
  function WithWeekendFlag(df: seq<Record>): (f: seq<FlaggedRecord>)
    ensures |f| == |df|
    ensures forall i :: 0 <= i < |f| ==>
      f[i].rec == df[i] && (f[i].isWeekend <==> df[i].weekday == "Saturday" || df[i].weekday == "Sunday")
  {
    seq(|df|, i requires 0 <= i < |df| => FlaggedRecord(df[i], IsWeekendDay(df[i].weekday)))
  }

  /** A boolean key column: false sorts before true. */
  function Bit(b: bool): int
  {
    if b then 1 else 0
  }

  function FlagKey(f: FlaggedRecord): Key { [f.rec.hr, Bit(f.isWeekend)] }

  function FlagCasual(f: FlaggedRecord): int { f.rec.casual }

  function FlagRegistered(f: FlaggedRecord): int { f.rec.registered }

  function FlagCnt(f: FlaggedRecord): int { f.rec.cnt }

  /**
    One row of the hourly usage table: an (hour, weekend) group with its
    mean casual, registered and total counts and the ratio of the first two
    (`None` when the registered mean is zero).
   */
  datatype HourRow = HourRow(hr: int, isWeekend: bool, casual: real, registered: real, cnt: real, ratio: Option<real>)

  function HourRowKey(row: HourRow): Key { [row.hr, Bit(row.isWeekend)] }

  function HourRowOf(g: Group<FlaggedRecord>): HourRow
    requires g.members != []
  {
    var f := g.members[0];
    var casual := Mean(g.members, FlagCasual);
    var registered := Mean(g.members, FlagRegistered);
    HourRow(f.rec.hr, f.isWeekend, casual, registered, Mean(g.members, FlagCnt),
            if registered == 0.0 then None else Some(casual / registered))
  }

  /** The (hour, weekend) table before it is split. */
  function HourlyUsageTable(df: seq<Record>): seq<HourRow>
  {
    var gs := GroupBy(WithWeekendFlag(df), FlagKey);
    seq(|gs|, i requires 0 <= i < |gs| => HourRowOf(gs[i]))
  }

  datatype HourlyUsageSplit = HourlyUsageSplit(weekday: seq<HourRow>, weekend: seq<HourRow>)

  predicate IsWeekdayRow(row: HourRow) { !row.isWeekend }

  predicate IsWeekendRow(row: HourRow) { row.isWeekend }

  /**
    `create_hourly_usage`: the weekday rows and the weekend rows of the
    hourly table. The two are disjoint and together hold every row of the
    table exactly once.
   */
  function HourlyUsage(df: seq<Record>): (u: HourlyUsageSplit)
    ensures forall row :: row in u.weekday ==> !row.isWeekend
    ensures forall row :: row in u.weekend ==> row.isWeekend
    ensures multiset(u.weekday) + multiset(u.weekend) == multiset(HourlyUsageTable(df))
  {
    var t := HourlyUsageTable(df);
    WherePartition(t, IsWeekdayRow, IsWeekendRow);
    HourlyUsageSplit(Where(t, IsWeekdayRow), Where(t, IsWeekendRow))
  }

  // Reference definitions, stated on the records directly.

  function DayKey(r: Record): Key { [r.hr, Bit(IsWeekendDay(r.weekday))] }

  /** The records at hour h on weekend days (weekend) or on weekdays (not weekend). */
  function DayRecords(df: seq<Record>, h: int, weekend: bool): seq<Record>
  {
    Members(df, DayKey, [h, Bit(weekend)])
  }

  ghost predicate DayObserved(df: seq<Record>, h: int, weekend: bool)
  {
    exists r :: r in df && r.hr == h && IsWeekendDay(r.weekday) == weekend
  }

  ghost predicate HasHourRow(rows: seq<HourRow>, h: int)
  {
    exists i :: 0 <= i < |rows| && rows[i].hr == h
  }

  lemma HourlyUsageRow(df: seq<Record>, i: nat)
    requires i < |HourlyUsageTable(df)|
    ensures var row := HourlyUsageTable(df)[i];
      && GroupBy(WithWeekendFlag(df), FlagKey)[i].key == HourRowKey(row)
      && DayRecords(df, row.hr, row.isWeekend) != []
      && row.casual == Mean(DayRecords(df, row.hr, row.isWeekend), Casual)
      && row.registered == Mean(DayRecords(df, row.hr, row.isWeekend), Registered)
      && row.cnt == Mean(DayRecords(df, row.hr, row.isWeekend), Cnt)
      && row.ratio == (if row.registered == 0.0 then None else Some(row.casual / row.registered))
  {
    var f := WithWeekendFlag(df);
    var gs := GroupBy(f, FlagKey);
    var row := HourlyUsageTable(df)[i];
    GroupMembersHaveKey(f, FlagKey, i, gs[i].members[0]);
    var k := gs[i].key;
    assert k == HourRowKey(row);
    assert forall j :: 0 <= j < |f| ==> FlagKey(f[j]) == DayKey(df[j]);
    MembersCorrespond(f, df, FlagKey, DayKey, FlagCasual, Casual, k);
    MembersCorrespond(f, df, FlagKey, DayKey, FlagRegistered, Registered, k);
    MembersCorrespond(f, df, FlagKey, DayKey, FlagCnt, Cnt, k);
  }

  /**
    Each row of either output holds the means of casual, registered and
    total counts over the records of its hour and day kind, and the ratio of
    the casual to the registered mean.
   */
  lemma HourlyUsageRows(df: seq<Record>)
    ensures var u := HourlyUsage(df);
      forall row :: row in u.weekday || row in u.weekend ==>
        && DayRecords(df, row.hr, row.isWeekend) != []
        && row.casual == Mean(DayRecords(df, row.hr, row.isWeekend), Casual)
        && row.registered == Mean(DayRecords(df, row.hr, row.isWeekend), Registered)
        && row.cnt == Mean(DayRecords(df, row.hr, row.isWeekend), Cnt)
        && row.ratio == (if row.registered == 0.0 then None else Some(row.casual / row.registered))
  {
    var t := HourlyUsageTable(df);
    forall row | row in HourlyUsage(df).weekday || row in HourlyUsage(df).weekend
      ensures DayRecords(df, row.hr, row.isWeekend) != []
      ensures row.casual == Mean(DayRecords(df, row.hr, row.isWeekend), Casual)
      ensures row.registered == Mean(DayRecords(df, row.hr, row.isWeekend), Registered)
      ensures row.cnt == Mean(DayRecords(df, row.hr, row.isWeekend), Cnt)
    {
      assert row in t;
      var i :| 0 <= i < |t| && t[i] == row;
      HourlyUsageRow(df, i);
    }
  }

  lemma HourlyUsageRowKey(df: seq<Record>, i: nat)
    requires i < |HourlyUsageTable(df)|
    ensures GroupBy(WithWeekendFlag(df), FlagKey)[i].key == HourRowKey(HourlyUsageTable(df)[i])
  {
    var f := WithWeekendFlag(df);
    var gs := GroupBy(f, FlagKey);
    GroupMembersHaveKey(f, FlagKey, i, gs[i].members[0]);
  }

  /** Observed (hour, weekend) pairs of the records are keys of the flagged frame. */
  lemma DayObservedIsFlagObserved(df: seq<Record>, h: int, weekend: bool)
    ensures DayObserved(df, h, weekend) <==> Observed(WithWeekendFlag(df), FlagKey, [h, Bit(weekend)])
  {
    var f := WithWeekendFlag(df);
    var k := [h, Bit(weekend)];
    if DayObserved(df, h, weekend) {
      var r :| r in df && r.hr == h && IsWeekendDay(r.weekday) == weekend;
      var j :| 0 <= j < |df| && df[j] == r;
      assert f[j] in f && FlagKey(f[j]) == k;
    }
    if Observed(f, FlagKey, k) {
      var x :| x in f && FlagKey(x) == k;
      var j :| 0 <= j < |f| && f[j] == x;
      assert df[j] in df && df[j].hr == h;
      assert Bit(IsWeekendDay(df[j].weekday)) == Bit(weekend);
    }
  }

  /** The hourly table has a row exactly for the (hour, weekend) pairs observed in the records. */
  lemma HourlyTableKeys(df: seq<Record>, h: int, weekend: bool)
    ensures DayObserved(df, h, weekend) <==>
      exists i :: 0 <= i < |HourlyUsageTable(df)| && HourlyUsageTable(df)[i].hr == h && HourlyUsageTable(df)[i].isWeekend == weekend
  {
    var f := WithWeekendFlag(df);
    var gs := GroupBy(f, FlagKey);
    var t := HourlyUsageTable(df);
    var k := [h, Bit(weekend)];
    DayObservedIsFlagObserved(df, h, weekend);
    if DayObserved(df, h, weekend) {
      var i :| 0 <= i < |gs| && gs[i].key == k;
      HourlyUsageRowKey(df, i);
      assert t[i].hr == h && Bit(t[i].isWeekend) == Bit(weekend);
    }
    if exists i :: 0 <= i < |t| && t[i].hr == h && t[i].isWeekend == weekend {
      var i :| 0 <= i < |t| && t[i].hr == h && t[i].isWeekend == weekend;
      HourlyUsageRowKey(df, i);
      assert gs[i].key == k;
    }
  }

  /** The rows of an output selected by a row mask are the table rows of one day kind. */
  lemma OutputKeys(df: seq<Record>, h: int, weekend: bool, rows: seq<HourRow>)
    requires forall row :: row in rows <==> row in HourlyUsageTable(df) && row.isWeekend == weekend
    ensures DayObserved(df, h, weekend) <==> HasHourRow(rows, h)
  {
    var t := HourlyUsageTable(df);
    HourlyTableKeys(df, h, weekend);
    if DayObserved(df, h, weekend) {
      var i :| 0 <= i < |t| && t[i].hr == h && t[i].isWeekend == weekend;
      assert t[i] in rows;
      var j :| 0 <= j < |rows| && rows[j] == t[i];
    }
    if HasHourRow(rows, h) {
      var j :| 0 <= j < |rows| && rows[j].hr == h;
      assert rows[j] in rows;
      var i :| 0 <= i < |t| && t[i] == rows[j];
    }
  }

  /**
    The weekday output has a row for exactly the hours observed on a weekday,
    the weekend output for exactly the hours observed on a Saturday or Sunday.
   */
  lemma HourlyUsageKeys(df: seq<Record>)
    ensures forall h :: DayObserved(df, h, false) <==> HasHourRow(HourlyUsage(df).weekday, h)
    ensures forall h :: DayObserved(df, h, true) <==> HasHourRow(HourlyUsage(df).weekend, h)
  {
    var u := HourlyUsage(df);
    forall h ensures DayObserved(df, h, false) <==> HasHourRow(u.weekday, h) {
      OutputKeys(df, h, false, u.weekday);
    }
    forall h ensures DayObserved(df, h, true) <==> HasHourRow(u.weekend, h) {
      OutputKeys(df, h, true, u.weekend);
    }
  }

  /** Both outputs are ordered by hour of day, each hour at most once, ready to plot. */
  lemma HourlyUsageSorted(df: seq<Record>)
    ensures var w := HourlyUsage(df).weekday; forall i, j :: 0 <= i < j < |w| ==> w[i].hr < w[j].hr
    ensures var w := HourlyUsage(df).weekend; forall i, j :: 0 <= i < j < |w| ==> w[i].hr < w[j].hr
  {
    var t := HourlyUsageTable(df);
    var u := HourlyUsage(df);
    var before := (a: HourRow, b: HourRow) => Less(HourRowKey(a), HourRowKey(b));
    forall i, j | 0 <= i < j < |t| ensures before(t[i], t[j]) {
      HourlyUsageRowKey(df, i);
      HourlyUsageRowKey(df, j);
    }
    WhereKeepsOrder(t, IsWeekdayRow, before);
    WhereKeepsOrder(t, IsWeekendRow, before);
    forall i, j | 0 <= i < j < |u.weekday| ensures u.weekday[i].hr < u.weekday[j].hr {
      var a, b := u.weekday[i], u.weekday[j];
      assert a in u.weekday && b in u.weekday;
      LessOnPair(a.hr, Bit(a.isWeekend), b.hr, Bit(b.isWeekend));
    }
    forall i, j | 0 <= i < j < |u.weekend| ensures u.weekend[i].hr < u.weekend[j].hr {
      var a, b := u.weekend[i], u.weekend[j];
      assert a in u.weekend && b in u.weekend;
      LessOnPair(a.hr, Bit(a.isWeekend), b.hr, Bit(b.isWeekend));
    }
  }

  /** Records all on weekdays with casual 0 and registered and total 100. */
  ghost predicate ConstantWeekdays(df: seq<Record>)
  {
    forall r :: r in df ==> !IsWeekendDay(r.weekday) && r.casual == 0 && r.registered == 100 && r.cnt == 100
  }

  lemma ConstantWeekdaysTable(df: seq<Record>, i: nat)
    requires ConstantWeekdays(df) && i < |HourlyUsageTable(df)|
    ensures var row := HourlyUsageTable(df)[i];
      && !row.isWeekend
      && row.casual == 0.0 && row.registered == 100.0 && row.cnt == 100.0 && row.ratio == Some(0.0)
  {
    var row := HourlyUsageTable(df)[i];
    HourlyUsageRow(df, i);
    var rs := DayRecords(df, row.hr, row.isWeekend);
    assert rs[0] in rs;
    assert IsWeekendDay(rs[0].weekday) == row.isWeekend by {
      assert Bit(IsWeekendDay(rs[0].weekday)) == Bit(row.isWeekend);
    }
    MeanConst(rs, Casual, 0);
    MeanConst(rs, Registered, 100);
    MeanConst(rs, Cnt, 100);
  }

  lemma ConstantWeekdaysKeys(df: seq<Record>)
    requires ConstantWeekdays(df)
    ensures HourlyUsage(df).weekend == []
    ensures forall h :: HourObserved(df, h) <==> HasHourRow(HourlyUsage(df).weekday, h)
  {
    var t := HourlyUsageTable(df);
    forall i | 0 <= i < |t| ensures !IsWeekendRow(t[i]) {
      ConstantWeekdaysTable(df, i);
    }
    WhereNone(t, IsWeekendRow);
    assert HourlyUsage(df).weekend == [];
    forall h ensures HourObserved(df, h) <==> HasHourRow(HourlyUsage(df).weekday, h) {
      OutputKeys(df, h, false, HourlyUsage(df).weekday);
      if HourObserved(df, h) {
        var r :| r in df && r.hr == h;
        assert DayObserved(df, h, false);
      }
    }
  }

  lemma ConstantWeekdaysMeans(df: seq<Record>)
    requires ConstantWeekdays(df)
    ensures forall row :: row in HourlyUsage(df).weekday ==>
      row.casual == 0.0 && row.registered == 100.0 && row.cnt == 100.0 && row.ratio == Some(0.0)
  {
    var t := HourlyUsageTable(df);
    forall row | row in HourlyUsage(df).weekday
      ensures row.casual == 0.0 && row.registered == 100.0 && row.cnt == 100.0 && row.ratio == Some(0.0)
    {
      assert row in t;
      var i :| 0 <= i < |t| && t[i] == row;
      ConstantWeekdaysTable(df, i);
    }
  }

  /**
    Records all on weekdays with casual 0 and registered 100 give no weekend
    rows and, for every observed hour, one weekday row with casual mean 0,
    registered mean 100 and ratio 0.
   */
  lemma HourlyUsageConstantWeekdays(df: seq<Record>)
    requires forall r :: r in df ==> !IsWeekendDay(r.weekday) && r.casual == 0 && r.registered == 100 && r.cnt == 100
    ensures HourlyUsage(df).weekend == []
    ensures forall row :: row in HourlyUsage(df).weekday ==>
      row.casual == 0.0 && row.registered == 100.0 && row.cnt == 100.0 && row.ratio == Some(0.0)
    ensures forall h :: HourObserved(df, h) <==> HasHourRow(HourlyUsage(df).weekday, h)
  {
    ConstantWeekdaysKeys(df);
    ConstantWeekdaysMeans(df);
  }

  // ===========================================================================
  // create_monthly_trends

  /** One row of the monthly trends: the sums of a (year, month) group and its assembled date. */
  datatype MonthRow = MonthRow(year: int, month: int, casual: int, registered: int, cnt: int, date: Date)

  function MonthKey(r: Record): Key { [r.year, r.month] }

  function MonthRowKey(row: MonthRow): Key { [row.year, row.month] }

  /**
    The date assembled from a year and a month with day 1. The columns are
    combined into the number year * 10000 + month * 100 + 1 and read back as
    YYYYMMDD, so a month outside 1 to 12 carries into the year: the last two
    digits of year * 100 + month become the month.
   */
  function AssembledDate(year: int, month: int): (d: Date)
    ensures d.year * 100 + d.month == year * 100 + month
    ensures 0 <= d.month < 100 && d.day == 1
    ensures 1 <= month <= 12 ==> d == Date(year, month, 1)
  {
    Date(year + month / 100, month % 100, 1)
  }

  /** Moving hundreds of months into the year does not change the assembled date. */
  lemma AssembledDateCarries(year: int, month: int, k: int)
    ensures AssembledDate(year, month + 100 * k) == AssembledDate(year + k, month)
  {
    var d, e := AssembledDate(year, month + 100 * k), AssembledDate(year + k, month);
    assert d.year * 100 + d.month == e.year * 100 + e.month;
  }

  /** Two different (year, month) keys can assemble the same date: month 101 of 2011 is January 2012. */
  lemma FoldedMonthsShareADate()
    ensures AssembledDate(2011, 101) == AssembledDate(2012, 1) == Date(2012, 1, 1)
  {
    AssembledDateCarries(2011, 1, 1);
  }

  function MonthRowOf(g: Group<Record>): MonthRow
    requires g.members != []
  {
    var r := g.members[0];
    MonthRow(r.year, r.month, Sum(g.members, Casual), Sum(g.members, Registered), Sum(g.members, Cnt),
             AssembledDate(r.year, r.month))
  }

  /** The (year, month) sums, before the date column is assembled. */
  function MonthTable(df: seq<Record>): seq<MonthRow>
  {
    var gs := GroupBy(df, MonthKey);
    seq(|gs|, i requires 0 <= i < |gs| => MonthRowOf(gs[i]))
  }

  /** The record's year and month assemble into a date with a month of 1 to 12. */
  predicate ValidMonth(r: Record)
  {
    1 <= AssembledDate(r.year, r.month).month <= 12
  }

  /**
    `create_monthly_trends`: the sums per (year, month) with the assembled
    date; assembling fails when a record's month, after carrying into the
    year, is not 1 to 12. Months 1 to 12 always assemble.
   */
  function MonthlyTrends(df: seq<Record>): (res: Result<seq<MonthRow>>)
    ensures res.Ok? <==> forall r :: r in df ==> 1 <= (r.year * 100 + r.month) % 100 <= 12
    ensures (forall r :: r in df ==> 1 <= r.month <= 12) ==> res.Ok?
  {
    assert forall r: Record :: AssembledDate(r.year, r.month).month == (r.year * 100 + r.month) % 100 by {
      forall r: Record ensures AssembledDate(r.year, r.month).month == (r.year * 100 + r.month) % 100 {
        var d := AssembledDate(r.year, r.month);
        assert r.year * 100 + r.month == d.year * 100 + d.month;
      }
    }
    if forall r :: r in df ==> ValidMonth(r) then Ok(MonthTable(df))
    else Failure("cannot assemble the datetimes")
  }

  lemma MonthTableRow(df: seq<Record>, i: nat)
    requires i < |MonthTable(df)|
    ensures var row := MonthTable(df)[i];
      && GroupBy(df, MonthKey)[i].key == MonthRowKey(row)
      && Observed(df, MonthKey, MonthRowKey(row))
      && row.casual == Sum(Members(df, MonthKey, MonthRowKey(row)), Casual)
      && row.registered == Sum(Members(df, MonthKey, MonthRowKey(row)), Registered)
      && row.cnt == Sum(Members(df, MonthKey, MonthRowKey(row)), Cnt)
      && row.date == AssembledDate(row.year, row.month)
  {
    var gs := GroupBy(df, MonthKey);
    GroupMembersHaveKey(df, MonthKey, i, gs[i].members[0]);
  }

  ghost predicate HasMonthRow(rows: seq<MonthRow>, k: Key)
  {
    exists i :: 0 <= i < |rows| && MonthRowKey(rows[i]) == k
  }

  /**
    The monthly trends have exactly one row per (year, month) in the input,
    in ascending (year, month) order; each row holds its month's sums and
    its assembled date, which is the first day of that month when every
    month is 1 to 12; dates then ascend strictly with the rows.
   */
  lemma MonthlyTrendsRows(df: seq<Record>)
    requires MonthlyTrends(df).Ok?
    ensures var t := MonthlyTrends(df).value;
      forall i, j :: 0 <= i < j < |t| ==> t[i].year < t[j].year || (t[i].year == t[j].year && t[i].month < t[j].month)
    ensures (forall r :: r in df ==> 1 <= r.month <= 12) ==>
      var t := MonthlyTrends(df).value;
      forall i, j :: 0 <= i < j < |t| ==> DateLe(t[i].date, t[j].date) && t[i].date != t[j].date
    ensures forall k :: Observed(df, MonthKey, k) <==> HasMonthRow(MonthlyTrends(df).value, k)
    ensures forall row :: row in MonthlyTrends(df).value ==>
      && row.casual == Sum(Members(df, MonthKey, MonthRowKey(row)), Casual)
      && row.registered == Sum(Members(df, MonthKey, MonthRowKey(row)), Registered)
      && row.cnt == Sum(Members(df, MonthKey, MonthRowKey(row)), Cnt)
      && row.date == AssembledDate(row.year, row.month)
  {
    var t := MonthTable(df);
    var gs := GroupBy(df, MonthKey);
    forall i | 0 <= i < |t|
      ensures gs[i].key == MonthRowKey(t[i])
      ensures t[i].casual == Sum(Members(df, MonthKey, MonthRowKey(t[i])), Casual)
      ensures t[i].registered == Sum(Members(df, MonthKey, MonthRowKey(t[i])), Registered)
      ensures t[i].cnt == Sum(Members(df, MonthKey, MonthRowKey(t[i])), Cnt)
      ensures t[i].date == AssembledDate(t[i].year, t[i].month)
      ensures (forall r :: r in df ==> 1 <= r.month <= 12) ==> 1 <= t[i].month <= 12
    {
      MonthTableRow(df, i);
      var r :| r in df && MonthKey(r) == MonthRowKey(t[i]);
      assert r.month == t[i].month;
    }
    forall i, j | 0 <= i < j < |t|
      ensures t[i].year < t[j].year || (t[i].year == t[j].year && t[i].month < t[j].month)
    {
      LessOnPair(t[i].year, t[i].month, t[j].year, t[j].month);
    }
    forall k ensures Observed(df, MonthKey, k) <==> HasMonthRow(t, k) {
      if Observed(df, MonthKey, k) {
        var i :| 0 <= i < |gs| && gs[i].key == k;
      }
      if HasMonthRow(t, k) {
        var i :| 0 <= i < |t| && MonthRowKey(t[i]) == k;
      }
    }
  }

  function RowCasual(row: MonthRow): int { row.casual }

  function RowRegistered(row: MonthRow): int { row.registered }

  function RowCnt(row: MonthRow): int { row.cnt }

  /** The monthly sums add up to the input totals of casual, registered and total counts. */
  lemma MonthlyTrendsTotals(df: seq<Record>)
    requires MonthlyTrends(df).Ok?
    ensures Sum(MonthlyTrends(df).value, RowCasual) == Sum(df, Casual)
    ensures Sum(MonthlyTrends(df).value, RowRegistered) == Sum(df, Registered)
    ensures Sum(MonthlyTrends(df).value, RowCnt) == Sum(df, Cnt)
  {
    var gs := GroupBy(df, MonthKey);
    GroupByConservesSum(df, MonthKey, Casual, MonthTable(df), RowCasual);
    GroupByConservesSum(df, MonthKey, Registered, MonthTable(df), RowRegistered);
    GroupByConservesSum(df, MonthKey, Cnt, MonthTable(df), RowCnt);
  }

  // ===========================================================================
  // create_seasonal_ratio

  /**
    One row of the seasonal ratio: a season's sums and each user type's
    percentage of the total (`None` when the season's total is zero).
   */
  datatype SeasonRow = SeasonRow(season: int, casual: int, registered: int, cnt: int,
                                 casualPercent: Option<real>, registeredPercent: Option<real>)

  function SeasonKey(r: Record): Key { [r.season] }

  /** part / total * 100, in the order the dashboard computes it. */
  function Percent(part: int, total: int): Option<real>
  {
    if total == 0 then None else Some(part as real / total as real * 100.0)
  }

  function SeasonRowOf(g: Group<Record>): SeasonRow
    requires g.members != []
  {
    var casual, registered, cnt := Sum(g.members, Casual), Sum(g.members, Registered), Sum(g.members, Cnt);
    SeasonRow(g.members[0].season, casual, registered, cnt, Percent(casual, cnt), Percent(registered, cnt))
  }

  /** `create_seasonal_ratio`: sums per season with the casual and registered shares. */
  function SeasonalRatio(df: seq<Record>): seq<SeasonRow>
  {
    var gs := GroupBy(df, SeasonKey);
    seq(|gs|, i requires 0 <= i < |gs| => SeasonRowOf(gs[i]))
  }

  lemma SeasonalRatioRow(df: seq<Record>, i: nat)
    requires i < |SeasonalRatio(df)|
    ensures var row := SeasonalRatio(df)[i];
      && GroupBy(df, SeasonKey)[i].key == [row.season]
      && row.casual == Sum(Members(df, SeasonKey, [row.season]), Casual)
      && row.registered == Sum(Members(df, SeasonKey, [row.season]), Registered)
      && row.cnt == Sum(Members(df, SeasonKey, [row.season]), Cnt)
      && row.casualPercent == (if row.cnt == 0 then None else Some(row.casual as real / row.cnt as real * 100.0))
      && row.registeredPercent == (if row.cnt == 0 then None else Some(row.registered as real / row.cnt as real * 100.0))
  {
    var gs := GroupBy(df, SeasonKey);
    GroupMembersHaveKey(df, SeasonKey, i, gs[i].members[0]);
  }

  ghost predicate SeasonObserved(df: seq<Record>, s: int)
  {
    exists r :: r in df && r.season == s
  }

  ghost predicate HasSeasonRow(rows: seq<SeasonRow>, s: int)
  {
    exists i :: 0 <= i < |rows| && rows[i].season == s
  }

  /**
    The seasonal table has exactly one row per observed season, in ascending
    order, and each row holds its season's sums and the casual and
    registered shares of its total, in percent (undefined for a zero total).
   */
  lemma SeasonalRatioRows(df: seq<Record>)
    ensures var t := SeasonalRatio(df); forall i, j :: 0 <= i < j < |t| ==> t[i].season < t[j].season
    ensures forall s :: SeasonObserved(df, s) <==> HasSeasonRow(SeasonalRatio(df), s)
    ensures forall row :: row in SeasonalRatio(df) ==>
      && row.casual == Sum(Members(df, SeasonKey, [row.season]), Casual)
      && row.registered == Sum(Members(df, SeasonKey, [row.season]), Registered)
      && row.cnt == Sum(Members(df, SeasonKey, [row.season]), Cnt)
      && row.casualPercent == (if row.cnt == 0 then None else Some(row.casual as real / row.cnt as real * 100.0))
      && row.registeredPercent == (if row.cnt == 0 then None else Some(row.registered as real / row.cnt as real * 100.0))
  {
    var t := SeasonalRatio(df);
    forall row | row in t
      ensures row.casual == Sum(Members(df, SeasonKey, [row.season]), Casual)
      ensures row.registered == Sum(Members(df, SeasonKey, [row.season]), Registered)
      ensures row.cnt == Sum(Members(df, SeasonKey, [row.season]), Cnt)
      ensures row.casualPercent == (if row.cnt == 0 then None else Some(row.casual as real / row.cnt as real * 100.0))
      ensures row.registeredPercent == (if row.cnt == 0 then None else Some(row.registered as real / row.cnt as real * 100.0))
    {
      var i :| 0 <= i < |t| && t[i] == row;
      SeasonalRatioRow(df, i);
    }
    forall i, j | 0 <= i < j < |t| ensures t[i].season < t[j].season {
      SeasonalRatioRow(df, i);
      SeasonalRatioRow(df, j);
      LessOnSingle(t[i].season, t[j].season);
    }
    forall s ensures SeasonObserved(df, s) <==> HasSeasonRow(t, s) {
      SeasonalRatioHasSeason(df, s);
    }
  }

  /** Season s has a row of the seasonal table exactly when it occurs in the records. */
  lemma SeasonalRatioHasSeason(df: seq<Record>, s: int)
    ensures SeasonObserved(df, s) <==> HasSeasonRow(SeasonalRatio(df), s)
  {
    var t := SeasonalRatio(df);
    var gs := GroupBy(df, SeasonKey);
    if SeasonObserved(df, s) {
      var r :| r in df && r.season == s;
      assert Observed(df, SeasonKey, SeasonKey(r));
      var i :| 0 <= i < |gs| && gs[i].key == [s];
      SeasonalRatioRow(df, i);
    }
    if HasSeasonRow(t, s) {
      var i :| 0 <= i < |t| && t[i].season == s;
      SeasonalRatioRow(df, i);
      assert Observed(df, SeasonKey, gs[i].key);
      var r :| r in df && SeasonKey(r) == gs[i].key;
      assert r.season == s;
    }
  }

  function SeasonCasual(row: SeasonRow): int { row.casual }

  function SeasonRegistered(row: SeasonRow): int { row.registered }

  function SeasonCnt(row: SeasonRow): int { row.cnt }

  /** The seasonal sums add up to the input totals of casual, registered and total counts. */
  lemma SeasonalRatioTotals(df: seq<Record>)
    ensures Sum(SeasonalRatio(df), SeasonCasual) == Sum(df, Casual)
    ensures Sum(SeasonalRatio(df), SeasonRegistered) == Sum(df, Registered)
    ensures Sum(SeasonalRatio(df), SeasonCnt) == Sum(df, Cnt)
  {
    GroupByConservesSum(df, SeasonKey, Casual, SeasonalRatio(df), SeasonCasual);
    GroupByConservesSum(df, SeasonKey, Registered, SeasonalRatio(df), SeasonRegistered);
    GroupByConservesSum(df, SeasonKey, Cnt, SeasonalRatio(df), SeasonCnt);
  }

  /**
    When every record's total is its casual plus its registered count, each
    season with rentals has two percentages in [0, 100] that add up to
    exactly 100, and a season without rentals has neither.
   */
  lemma SeasonalPercentsAddUp(df: seq<Record>)
    requires forall r :: r in df ==> CountsAddUp(r)
    ensures forall row :: row in SeasonalRatio(df) ==>
      if row.cnt > 0 then
        && row.casualPercent.Some? && row.registeredPercent.Some?
        && row.casualPercent.value + row.registeredPercent.value == 100.0
        && 0.0 <= row.casualPercent.value <= 100.0
        && 0.0 <= row.registeredPercent.value <= 100.0
      else
        row.casualPercent.None? && row.registeredPercent.None?
  {
    SeasonalRatioRows(df);
    forall row | row in SeasonalRatio(df)
      ensures row.cnt >= 0 && row.casual + row.registered == row.cnt
      ensures row.casual >= 0 && row.registered >= 0
    {
      var m := Members(df, SeasonKey, [row.season]);
      SumAdd(m, Casual, Registered, Cnt);
      SumNonneg(m, Casual);
      SumNonneg(m, Registered);
    }
    forall row | row in SeasonalRatio(df) && row.cnt > 0
      ensures row.casualPercent.value + row.registeredPercent.value == 100.0
    {
      PercentsAddUp(row.casual, row.registered, row.cnt);
    }
  }

  /**
    Seasons whose sums are 30 casual, 70 registered and 100 in total, or 50,
    50 and 100, show 30% and 70%, or 50% and 50%.
   */
  lemma SeasonalPercentsOfTotals(df: seq<Record>)
    ensures forall row :: row in SeasonalRatio(df) && row.casual == 30 && row.registered == 70 && row.cnt == 100 ==>
      row.casualPercent == Some(30.0) && row.registeredPercent == Some(70.0)
    ensures forall row :: row in SeasonalRatio(df) && row.casual == 50 && row.registered == 50 && row.cnt == 100 ==>
      row.casualPercent == Some(50.0) && row.registeredPercent == Some(50.0)
  {
    SeasonalRatioRows(df);
  }

  lemma PercentsAddUp(a: int, b: int, total: int)
    requires total > 0 && a + b == total
    ensures Percent(a, total).value + Percent(b, total).value == 100.0
  {
    var t := total as real;
    assert a as real / t + b as real / t == (a as real + b as real) / t;
  }

  // ===========================================================================
  // The mean count per temperature bucket and per weather situation

  /** One row of a mean-count table: a bucket and the mean count of its records. */
  datatype MeanRow = MeanRow(bin: int, cnt: real)

  function TempBin(r: Record): int { r.tempBin }

  function Weathersit(r: Record): int { r.weathersit }

  /** The key made of the single column col. */
  function ColumnKey(col: Record -> int): Record -> Key
  {
    (r: Record) => [col(r)]
  }

  function MeanRowOf(col: Record -> int, g: Group<Record>): MeanRow
    requires g.members != []
  {
    MeanRow(col(g.members[0]), Mean(g.members, Cnt))
  }

  /** `groupby(col).agg({'cnt': 'mean'})`. */
  function MeanCntBy(df: seq<Record>, col: Record -> int): seq<MeanRow>
  {
    var gs := GroupBy(df, ColumnKey(col));
    seq(|gs|, i requires 0 <= i < |gs| => MeanRowOf(col, gs[i]))
  }

  /** The records whose column col holds v. */
  function RecordsWith(df: seq<Record>, col: Record -> int, v: int): seq<Record>
  {
    Members(df, ColumnKey(col), [v])
  }

  ghost predicate ValueObserved(df: seq<Record>, col: Record -> int, v: int)
  {
    exists r :: r in df && col(r) == v
  }

  ghost predicate HasMeanRow(rows: seq<MeanRow>, v: int)
  {
    exists i :: 0 <= i < |rows| && rows[i].bin == v
  }

  /**
    A mean-count table has exactly one row per observed value of its column,
    values ascending, each with the mean count of the records holding it.
   */
  lemma MeanCntByCorrect(df: seq<Record>, col: Record -> int)
    ensures var t := MeanCntBy(df, col); forall i, j :: 0 <= i < j < |t| ==> t[i].bin < t[j].bin
    ensures forall v :: ValueObserved(df, col, v) <==> HasMeanRow(MeanCntBy(df, col), v)
    ensures forall row :: row in MeanCntBy(df, col) ==>
      RecordsWith(df, col, row.bin) != [] && row.cnt == Mean(RecordsWith(df, col, row.bin), Cnt)
  {
    var key := ColumnKey(col);
    var gs := GroupBy(df, key);
    var t := MeanCntBy(df, col);
    forall i | 0 <= i < |t| ensures gs[i].key == [t[i].bin]
      ensures RecordsWith(df, col, t[i].bin) != [] && t[i].cnt == Mean(RecordsWith(df, col, t[i].bin), Cnt)
    {
      GroupMembersHaveKey(df, key, i, gs[i].members[0]);
    }
    forall i, j | 0 <= i < j < |t| ensures t[i].bin < t[j].bin {
      LessOnSingle(t[i].bin, t[j].bin);
    }
    forall v ensures ValueObserved(df, col, v) <==> HasMeanRow(t, v) {
      if ValueObserved(df, col, v) {
        var r :| r in df && col(r) == v;
        assert key(r) == [v];
        assert Observed(df, key, [v]);
        var i :| 0 <= i < |gs| && gs[i].key == [v];
        assert t[i].bin == v;
      }
      if HasMeanRow(t, v) {
        var i :| 0 <= i < |t| && t[i].bin == v;
        assert Observed(df, key, gs[i].key);
        var r :| r in df && key(r) == gs[i].key;
        assert col(r) == v;
      }
    }
  }

  /** The temperature panel: mean count per temperature bucket, one row per observed bucket, ascending. */
  function TempImpact(df: seq<Record>): (t: seq<MeanRow>)
    ensures forall i, j :: 0 <= i < j < |t| ==> t[i].bin < t[j].bin
    ensures forall v :: ValueObserved(df, TempBin, v) <==> HasMeanRow(t, v)
    ensures forall row :: row in t ==>
      RecordsWith(df, TempBin, row.bin) != [] && row.cnt == Mean(RecordsWith(df, TempBin, row.bin), Cnt)
  {
    MeanCntByCorrect(df, TempBin);
    MeanCntBy(df, TempBin)
  }

  /** The weather panel: mean count per weather situation, one row per observed situation, ascending. */
  function WeatherImpact(df: seq<Record>): (t: seq<MeanRow>)
    ensures forall i, j :: 0 <= i < j < |t| ==> t[i].bin < t[j].bin
    ensures forall v :: ValueObserved(df, Weathersit, v) <==> HasMeanRow(t, v)
    ensures forall row :: row in t ==>
      RecordsWith(df, Weathersit, row.bin) != [] && row.cnt == Mean(RecordsWith(df, Weathersit, row.bin), Cnt)
  {
    MeanCntByCorrect(df, Weathersit);
    MeanCntBy(df, Weathersit)
  }
}
