/**
 * The figures computed from the filtered long table: the key metrics shown
 * above the tabs and the monthly punctuality summary offered for download,
 * one row per employee and calendar month with the punctual and late days,
 * the rate and the "Yes"/"No" status.
 */
module Summary {
  import opened Wrappers
  import opened Tables
  import opened Calendar
  import opened Reshape

  /** round(p / n * 100, 2) in hundredths of a percent: the nearest hundredth,
      a value half-way between two rounded up; 0 when there is no record. */
  function RatePct(p: nat, n: nat): (r: nat)
    ensures n == 0 ==> r == 0
    ensures n > 0 ==> -(n as int) <= 20000 * p - 2 * n * r < n
  {
    if n == 0 then 0 else (20000 * p + n) / (2 * n)
  }

  /** A rate of p out of at most p records is at most 100%; all of them, exactly 100%. */
  lemma RateAtMostHundred(p: nat, n: nat)
    requires p <= n
    ensures RatePct(p, n) <= 10000
    ensures 0 < p == n ==> RatePct(p, n) == 10000
  {
    if n > 0 {
      var r := RatePct(p, n);
      var twice := 2 * n;
      assert -(n as int) <= 20000 * p - twice * r < n;
      MulMonotone(20000, p, n);
      assert twice * 10001 == 20002 * n && twice * 9999 == 19998 * n;
      if r > 10000 {
        MulMonotone(twice, 10001, r);
      }
      if p == n && r < 10000 {
        MulMonotone(twice, r, 9999);
      }
    }
  }

  /** The rounded rate reaches 90% exactly when 20000 * p >= 17999 * n: the
      threshold lies at 89.995% of the records. */
  lemma RateThreshold(p: nat, n: nat)
    requires n > 0
    ensures RatePct(p, n) >= 9000 <==> 20000 * p >= 17999 * n
  {
    var r := RatePct(p, n);
    var twice := 2 * n;
    assert -(n as int) <= 20000 * p - twice * r < n;
    if r >= 9000 {
      MulMonotone(twice, 9000, r);
      assert twice * 9000 == 18000 * n;
    } else {
      MulMonotone(twice, r, 8999);
      assert twice * 8999 == 17998 * n;
    }
  }

  lemma MulMonotone(a: nat, b: int, c: int)
    requires b <= c
    ensures a * b <= a * c
  {
    assert a * c - a * b == a * (c - b);
  }

  /** The records marked punctual (is_punctual), and the others. */
  function Punctual(fs: seq<Fact>): seq<Fact>
  {
    Where(fs, (f: Fact) => f.punctual)
  }

  function Late(fs: seq<Fact>): seq<Fact>
  {
    Where(fs, (f: Fact) => !f.punctual)
  }

  /** Every record is punctual or late, never both. */
  lemma PunctualPlusLate(fs: seq<Fact>)
    ensures |Punctual(fs)| + |Late(fs)| == |fs|
  {
    WhereSplit(fs, (f: Fact) => f.punctual, (f: Fact) => !f.punctual);
  }

  /** The distinct employee ids (nunique). */
  function Employees(fs: seq<Fact>): set<string>
  {
    set f | f in fs :: f.id
  }

  lemma {:induction false} EmployeesAtMostRecords(fs: seq<Fact>)
    ensures |Employees(fs)| <= |fs|
    ensures fs != [] ==> |Employees(fs)| >= 1
  {
    if fs != [] {
      var init := fs[..|fs| - 1];
      var last := fs[|fs| - 1];
      assert fs == init + [last];
      EmployeesAtMostRecords(init);
      assert Employees(fs) == Employees(init) + {last.id};
    }
  }

  /** The hundredths of hours over the records that have a number, and how
      many they are: the missing values are skipped by the mean. */
  function HoursSum(fs: seq<Fact>): int
    decreases |fs|
  {
    if fs == [] then 0
    else HoursSum(fs[..|fs| - 1]) + (if fs[|fs| - 1].hours.Num? then fs[|fs| - 1].hours.centi else 0)
  }

  function HoursCount(fs: seq<Fact>): nat
    decreases |fs|
  {
    if fs == [] then 0
    else HoursCount(fs[..|fs| - 1]) + (if fs[|fs| - 1].hours.Num? then 1 else 0)
  }

  /** hours_worked.mean() in hours, exactly; None is the NaN of a table
      without any number. */
  function MeanHours(fs: seq<Fact>): (r: Option<real>)
    ensures r.None? <==> HoursCount(fs) == 0
    ensures r.Some? ==> r.value * (100 * HoursCount(fs)) as real == HoursSum(fs) as real
  {
    if HoursCount(fs) == 0 then None
    else Some(HoursSum(fs) as real / (100 * HoursCount(fs)) as real)
  }

  /** The mean lies between the smallest and the largest value present. */
  lemma {:induction false} MeanWithin(fs: seq<Fact>, lo: int, hi: int)
    requires forall f :: f in fs && f.hours.Num? ==> lo <= f.hours.centi <= hi
    ensures HoursCount(fs) <= |fs|
    ensures lo * HoursCount(fs) <= HoursSum(fs) <= hi * HoursCount(fs)
    decreases |fs|
  {
    if fs != [] {
      var init, last := fs[..|fs| - 1], fs[|fs| - 1];
      assert forall f :: f in init ==> f in fs;
      MeanWithin(init, lo, hi);
      var c := HoursCount(init);
      if last.hours.Num? {
        assert last in fs;
        assert HoursCount(fs) == c + 1 && HoursSum(fs) == HoursSum(init) + last.hours.centi;
        MulSucc(lo, c);
        MulSucc(hi, c);
      } else {
        assert HoursCount(fs) == c && HoursSum(fs) == HoursSum(init);
      }
    }
  }

  lemma MulSucc(a: int, c: int)
    ensures a * (c + 1) == a * c + a
  {
  }

  /** The four numbers shown as key metrics, and the mean behind the third. */
  datatype Metrics = Metrics(employees: nat, days: nat, punctual: nat, ratePct: nat,
                             avgHours: Option<real>)

  function KeyMetrics(fs: seq<Fact>): Metrics
  {
    var p := |Punctual(fs)|;
    Metrics(|Employees(fs)|, |fs|, p, RatePct(p, |fs|), MeanHours(fs))
  }

  /** The metrics agree with each other: no more punctual records or employees
      than records, a rate of at most 100%, and an empty table shows zeros. */
  lemma MetricsBounds(fs: seq<Fact>)
    ensures var m := KeyMetrics(fs);
      && m.punctual <= m.days
      && m.employees <= m.days
      && m.ratePct <= 10000
      && (m.days == 0 <==> m.employees == 0)
      && (m.days == 0 ==> m.ratePct == 0 && m.avgHours.None?)
  {
    PunctualPlusLate(fs);
    EmployeesAtMostRecords(fs);
    RateAtMostHundred(|Punctual(fs)|, |fs|);
  }

  /** An (employee_id, month_year) group key; the month is the "%Y-%m" period of the date. */
  datatype MonthKey = MonthKey(id: string, year: int, month: int)

  function MonthOf(f: Fact): MonthKey
  {
    var ym := YearMonthOf(f.date);
    MonthKey(f.id, ym.0, ym.1)
  }

  /** The records of one group, in table order. */
  function Group(fs: seq<Fact>, k: MonthKey): seq<Fact>
  {
    Where(fs, (f: Fact) => MonthOf(f) == k)
  }

  /** Punctual_Status: "Yes" when the rounded rate is at least 90. */
  function Status(ratePct: nat): string
  {
    if ratePct >= 9000 then "Yes" else "No"
  }

  datatype MonthRow = MonthRow(totalDays: nat, punctualDays: nat, lateDays: nat, ratePct: nat,
                               avgHours: Option<real>, status: string)

  /** The aggregates of one group. */
  function Aggregate(g: seq<Fact>): MonthRow
  {
    var p := |Punctual(g)|;
    var rate := RatePct(p, |g|);
    MonthRow(|g|, p, |Late(g)|, rate, MeanHours(g), Status(rate))
  }

  /** monthly_summary_df, one row per group present in the table. */
  function MonthlySummary(fs: seq<Fact>): map<MonthKey, MonthRow>
  {
    map k | k in (set f | f in fs :: MonthOf(f)) :: Aggregate(Group(fs, k))
  }

  /** Every record falls in the group of its own employee and month, and each
      summary row aggregates that group. */
  lemma SummaryGroups(fs: seq<Fact>)
    ensures forall f :: f in fs ==> MonthOf(f) in MonthlySummary(fs) && f in Group(fs, MonthOf(f))
    ensures forall k :: k in MonthlySummary(fs) ==>
      Group(fs, k) != [] && MonthlySummary(fs)[k] == Aggregate(Group(fs, k))
  {
    forall k | k in MonthlySummary(fs) ensures Group(fs, k) != [] {
      var f :| f in fs && MonthOf(f) == k;
      assert f in Group(fs, k);
    }
  }

  /** The summary row of a record's employee and month (every row is one, by
      SummaryGroups): at least one day, punctual and late days adding up to
      the days, a rate of at most 100%, and the status "Yes" exactly when the
      rate is at least 90%, that is when 20000 * punctual >= 17999 * days. */
  lemma SummaryRow(fs: seq<Fact>, f: Fact)
    requires f in fs
    ensures MonthOf(f) in MonthlySummary(fs)
    ensures var row := MonthlySummary(fs)[MonthOf(f)];
      && row.totalDays > 0
      && row.punctualDays + row.lateDays == row.totalDays
      && row.ratePct <= 10000
      && (row.status == "Yes" <==> row.ratePct >= 9000)
      && (row.status == "Yes" <==> 20000 * row.punctualDays >= 17999 * row.totalDays)
      && (row.status == "Yes" || row.status == "No")
  {
    SummaryGroups(fs);
    var g := Group(fs, MonthOf(f));
    PunctualPlusLate(g);
    RateAtMostHundred(|Punctual(g)|, |g|);
    RateThreshold(|Punctual(g)|, |g|);
  }

  /** 18 punctual days out of 20 round to 90.00% and give "Yes"; 17 out of 19
      round to 89.47% and give "No". */
  lemma ScenarioStatus()
    ensures RatePct(18, 20) == 9000 && Status(RatePct(18, 20)) == "Yes"
    ensures RatePct(17, 19) == 8947 && Status(RatePct(17, 19)) == "No"
  {
  }
}
