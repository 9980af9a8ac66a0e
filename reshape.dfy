/**
 * The reshape from the wide sheet to the long fact table: the hours columns
 * ordered by the number after their first '_', one record per (column, row)
 * carrying the four identity fields, the day number read from the column name,
 * the calendar date of that day and the punctuality flag.
 */
module Reshape {
  import opened Wrappers
  import opened Strings
  import opened Tables
  import opened Derivation
  import opened Dedup

  /** int(name.split('_')[1]): the sort key of an hours column. None is the
      IndexError or ValueError the script stops with. */
  function SortKey(name: string): Option<int>
  {
    match SecondField(name, '_')
    case None => None
    case Some(f) => ParseInt(f)
  }

  /** The columns paired with their keys; None when any key fails (sorted()
      computes every key before it orders anything). */
  function Keyed(cols: seq<string>): (r: Option<seq<(string, int)>>)
    ensures r.Some? <==> forall k :: 0 <= k < |cols| ==> SortKey(cols[k]).Some?
    ensures r.Some? ==> |r.value| == |cols|
    ensures r.Some? ==> forall k :: 0 <= k < |cols| ==> r.value[k] == (cols[k], SortKey(cols[k]).value)
  {
    if forall k :: 0 <= k < |cols| ==> SortKey(cols[k]).Some? then
      Some(seq(|cols|, k requires 0 <= k < |cols| => (cols[k], SortKey(cols[k]).value)))
    else None
  }

  predicate SortedByKey(s: seq<(string, int)>)
  {
    forall i, j :: 0 <= i < j < |s| ==> s[i].1 <= s[j].1
  }

  /** x placed after every element whose key is not larger than its own. */
  function Insert(x: (string, int), s: seq<(string, int)>): (r: seq<(string, int)>)
    decreases |s|
  {
    if s == [] || s[|s| - 1].1 <= x.1 then s + [x]
    else Insert(x, s[..|s| - 1]) + [s[|s| - 1]]
  }

  /** sorted(cols, key=...): a stable sort on the key. */
  function SortByKey(s: seq<(string, int)>): seq<(string, int)>
    decreases |s|
  {
    if s == [] then [] else Insert(s[|s| - 1], SortByKey(s[..|s| - 1]))
  }

  lemma {:induction false} InsertMultiset(x: (string, int), s: seq<(string, int)>)
    ensures multiset(Insert(x, s)) == multiset(s) + multiset{x}
    decreases |s|
  {
    if s != [] && x.1 < s[|s| - 1].1 {
      var init := s[..|s| - 1];
      assert s == init + [s[|s| - 1]];
      InsertMultiset(x, init);
    }
  }

  lemma {:induction false} InsertSorted(x: (string, int), s: seq<(string, int)>)
    requires SortedByKey(s)
    ensures SortedByKey(Insert(x, s))
    ensures multiset(Insert(x, s)) == multiset(s) + multiset{x}
    decreases |s|
  {
    InsertMultiset(x, s);
    if s == [] || s[|s| - 1].1 <= x.1 {
      assert Insert(x, s) == s + [x];
      forall i | 0 <= i < |s| ensures s[i].1 <= x.1 {
        if i < |s| - 1 { assert s[i].1 <= s[|s| - 1].1; }
      }
    } else {
      var init := s[..|s| - 1];
      var last := s[|s| - 1];
      assert s == init + [last];
      assert SortedByKey(init);
      InsertSorted(x, init);
      var r := Insert(x, init);
      assert Insert(x, s) == r + [last];
      forall i | 0 <= i < |r| ensures r[i].1 <= last.1 {
        assert r[i] in multiset(r);
        if r[i] != x {
          assert r[i] in multiset(init);
          var k :| 0 <= k < |init| && init[k] == r[i];
          assert s[k] == r[i];
        }
      }
    }
  }

  /** The elements of key v, in order. */
  function OfKey(s: seq<(string, int)>, v: int): seq<(string, int)>
  {
    Where(s, (e: (string, int)) => e.1 == v)
  }

  lemma OfKeySnoc(s: seq<(string, int)>, y: (string, int), v: int)
    ensures OfKey(s + [y], v) == OfKey(s, v) + (if y.1 == v then [y] else [])
  {
    var u := s + [y];
    assert u[..|u| - 1] == s && u[|u| - 1] == y;
  }

  /** The elements of one key, in order, before and after an insertion. */
  lemma {:induction false} InsertStable(x: (string, int), s: seq<(string, int)>, v: int)
    ensures OfKey(Insert(x, s), v) == OfKey(s, v) + (if x.1 == v then [x] else [])
    decreases |s|
  {
    if s == [] || s[|s| - 1].1 <= x.1 {
      OfKeySnoc(s, x, v);
    } else {
      var init := s[..|s| - 1];
      var last := s[|s| - 1];
      InsertStable(x, init, v);
      OfKeySnoc(Insert(x, init), last, v);
      assert s == init + [last];
      OfKeySnoc(init, last, v);
      assert Insert(x, s) == Insert(x, init) + [last];
      var a := OfKey(init, v);
      if last.1 == v {
        assert OfKey(Insert(x, s), v) == a + [last];
        assert OfKey(s, v) == a + [last];
      } else if x.1 == v {
        assert OfKey(Insert(x, s), v) == a + [x];
        assert OfKey(s, v) == a;
      } else {
        assert OfKey(Insert(x, s), v) == a;
        assert OfKey(s, v) == a;
      }
    }
  }

  /** The sort orders by key, keeps every element, and keeps elements of
      equal key in their original order. */
  lemma {:induction false} SortByKeyCorrect(s: seq<(string, int)>)
    ensures SortedByKey(SortByKey(s))
    ensures multiset(SortByKey(s)) == multiset(s)
    ensures forall v :: OfKey(SortByKey(s), v) == OfKey(s, v)
    decreases |s|
  {
    if s != [] {
      var init := s[..|s| - 1];
      var last := s[|s| - 1];
      SortByKeyCorrect(init);
      InsertSorted(last, SortByKey(init));
      assert s == init + [last];
      forall v ensures OfKey(SortByKey(s), v) == OfKey(s, v) {
        InsertStable(last, SortByKey(init), v);
        OfKeySnoc(init, last, v);
      }
    }
  }

  function Names(s: seq<(string, int)>): (r: seq<string>)
    ensures |r| == |s| && forall k :: 0 <= k < |s| ==> r[k] == s[k].0
  {
    seq(|s|, k requires 0 <= k < |s| => s[k].0)
  }

  /** day_cols: the hours_ columns ordered by key, or None when a key fails. */
  function DayColumns(columns: seq<string>): Option<seq<(string, int)>>
  {
    match Keyed(ColumnsWithPrefix(columns, HoursPrefix))
    case None => None
    case Some(keyed) => Some(SortByKey(keyed))
  }

  /** One melted record: the identity fields, the column it came from and its cell. */
  datatype Record = Record(id: string, gender: string, resident: string, department: string,
                           day: string, hours: Cell)

  function RecordOf(r: Row, col: string): Record
  {
    Record(r.id, r.gender, r.resident, r.department, col, Get(r, col))
  }

  /** df.melt(id_vars=..., value_vars=dayCols): all rows for the first column,
      then all rows for the next, and so on. */
  function Melt(rows: seq<Row>, dayCols: seq<string>): (r: seq<Record>)
    ensures |r| == |dayCols| * |rows|
    decreases |dayCols|
  {
    if dayCols == [] then []
    else
      var last := dayCols[|dayCols| - 1];
      Melt(rows, dayCols[..|dayCols| - 1]) + seq(|rows|, j requires 0 <= j < |rows| => RecordOf(rows[j], last))
  }

  /** Record k * |rows| + j is row j under column k. */
  lemma {:induction false} MeltAt(rows: seq<Row>, dayCols: seq<string>, k: nat, j: nat)
    requires k < |dayCols| && j < |rows|
    ensures k * |rows| + j < |Melt(rows, dayCols)|
    ensures Melt(rows, dayCols)[k * |rows| + j] == RecordOf(rows[j], dayCols[k])
    decreases |dayCols|
  {
    var n := |rows|;
    var init := dayCols[..|dayCols| - 1];
    assert |Melt(rows, init)| == |init| * n;
    if k < |dayCols| - 1 {
      MeltAt(rows, init, k, j);
      assert k * n + j < |init| * n by {
        assert (k + 1) * n <= |init| * n;
      }
    } else {
      assert k * n == |init| * n;
    }
  }

  /** MeltAt at a position given by name. */
  lemma MeltAtPosition(rows: seq<Row>, dayCols: seq<string>, k: nat, j: nat, p: nat)
    requires k < |dayCols| && j < |rows| && p == k * |rows| + j
    ensures p < |Melt(rows, dayCols)| && Melt(rows, dayCols)[p] == RecordOf(rows[j], dayCols[k])
  {
    MeltAt(rows, dayCols, k, j);
  }

  lemma QuotientBelow(p: nat, n: nat, m: nat) returns (q: nat, r: nat)
    requires p < m * n
    ensures n > 0 && q == p / n && r == p % n
    ensures q < m && r < n && p == q * n + r
  {
    assert n != 0;
    q, r := p / n, p % n;
    assert q * n <= p;
    assert q * n < m * n;
  }

  /** Every record is row p % |rows| under column p / |rows|. */
  lemma MeltIndex(rows: seq<Row>, dayCols: seq<string>, p: nat)
    requires p < |Melt(rows, dayCols)|
    ensures |rows| > 0 && p / |rows| < |dayCols|
    ensures Melt(rows, dayCols)[p] == RecordOf(rows[p % |rows|], dayCols[p / |rows|])
  {
    var k, j := QuotientBelow(p, |rows|, |dayCols|);
    MeltAtPosition(rows, dayCols, k, j, p);
  }

  function Abs(v: int): nat
  {
    if v < 0 then -v else v
  }

  /** One row of the long table. */
  datatype Fact = Fact(id: string, gender: string, resident: string, department: string,
                       day: string, hours: Cell, dayNum: nat, date: int, punctual: bool)

  /** hours_worked >= 8: a missing (NaN) value compares false. */
  predicate IsPunctual(c: Cell)
  {
    c.Num? && c.centi >= PunctualCenti
  }

  /** The day number (first run of digits in the column name), the date
      start + (day_num - 1) days, and the flag; None when the name has no digit,
      where astype(int) fails on the missing number. Dates are day ordinals. */
  function Classify(rec: Record, start: int): (r: Option<Fact>)
    ensures r.Some? <==> FirstDigitRun(rec.day).Some?
  {
    match FirstDigitRun(rec.day)
    case None => None
    case Some(n) => Some(Fact(rec.id, rec.gender, rec.resident, rec.department,
                              rec.day, rec.hours, n, start + (n - 1), IsPunctual(rec.hours)))
  }

  /** Classify applied to every record; None when any day number is missing
      (astype(int) fails on the whole column). */
  function ClassifyAll(recs: seq<Record>, start: int): Option<seq<Fact>>
  {
    if forall k :: 0 <= k < |recs| ==> Classify(recs[k], start).Some? then
      Some(seq(|recs|, k requires 0 <= k < |recs| => Classify(recs[k], start).value))
    else None
  }

  /** Classification keeps each record's identity fields, column and cell. */
  lemma ClassifiedFields(recs: seq<Record>, start: int)
    requires ClassifyAll(recs, start).Some?
    ensures var fs := ClassifyAll(recs, start).value;
      && |fs| == |recs|
      && forall p :: 0 <= p < |fs| ==>
           && fs[p].id == recs[p].id && fs[p].gender == recs[p].gender
           && fs[p].resident == recs[p].resident && fs[p].department == recs[p].department
           && fs[p].day == recs[p].day && fs[p].hours == recs[p].hours
           && Some(fs[p].dayNum) == FirstDigitRun(recs[p].day)
           && fs[p].date == start + (fs[p].dayNum - 1)
           && fs[p].punctual == IsPunctual(fs[p].hours)
  {
  }

  /** The fact classified from one record. */
  lemma FactOfRecord(recs: seq<Record>, start: int, p: nat)
    requires ClassifyAll(recs, start).Some? && p < |recs|
    ensures var rec := recs[p];
      && FirstDigitRun(rec.day).Some?
      && p < |ClassifyAll(recs, start).value|
      && var n := FirstDigitRun(rec.day).value;
         ClassifyAll(recs, start).value[p]
         == Fact(rec.id, rec.gender, rec.resident, rec.department, rec.day, rec.hours,
                 n, start + (n - 1), IsPunctual(rec.hours))
  {
    assert Classify(recs[p], start).Some?;
  }

  /** The long table df_long for a start date, or None where the script stops. */
  function Facts(t: Sheet, start: int): Option<seq<Fact>>
  {
    match DayColumns(t.columns)
    case None => None
    case Some(cols) => ClassifyAll(Melt(t.rows, Names(cols)), start)
  }

  /** The digits at s[..b], followed by a non-digit or the end, are the leading digits. */
  lemma {:induction false} LeadingDigitsSpan(s: string, b: nat)
    requires b <= |s| && AllDigits(s[..b])
    requires b < |s| ==> !IsDigit(s[b])
    ensures LeadingDigits(s) == s[..b]
    decreases b
  {
    if b > 0 {
      assert IsDigit(s[..b][0]);
      LeadingDigitsSpan(s[1..], b - 1);
      assert s[1..][..b - 1] == s[1..b];
      assert s[..b] == [s[0]] + s[1..b];
    } else if s != [] {
      assert !IsDigit(s[0]);
    }
  }

  /** With no digit before a and digits at s[a..b] followed by a non-digit
      or the end, the first run of digits is s[a..b]. */
  lemma {:induction false} FirstDigitRunSpan(s: string, a: nat, b: nat)
    requires a < b <= |s|
    requires forall i :: 0 <= i < a ==> !IsDigit(s[i])
    requires AllDigits(s[a..b])
    requires b < |s| ==> !IsDigit(s[b])
    ensures FirstDigitRun(s) == Some(DigitsValue(s[a..b]))
    decreases a
  {
    if a == 0 {
      assert IsDigit(s[..b][0]);
      LeadingDigitsSpan(s, b);
    } else {
      assert !IsDigit(s[0]);
      assert s[1..][a - 1..b - 1] == s[a..b];
      FirstDigitRunSpan(s[1..], a - 1, b - 1);
    }
  }

  /** The field after the first '_' of an hours column starts right after "hours_". */
  lemma HoursKeyField(name: string)
    requires StartsWith(name, HoursPrefix)
    ensures SecondField(name, '_') == Some(UpTo(name[6..], '_'))
  {
    assert name[..5] == "hours";
    IndexOfAt(name, '_', 5);
  }

  /** The digit-free start and the digits of a field found at name[6..]. */
  lemma ShiftSpan(name: string, f: string, a: nat, b: nat)
    requires 6 + |f| <= |name| && f == name[6..6 + |f|] && name[..6] == HoursPrefix
    requires a < b <= |f| && forall i :: 0 <= i < a ==> !IsDigit(f[i])
    ensures forall i :: 0 <= i < 6 + a ==> !IsDigit(name[i])
    ensures name[6 + a..6 + b] == f[a..b]
  {
    forall i | 0 <= i < 6 + a ensures !IsDigit(name[i]) {
      if i < 6 {
        assert name[i] == HoursPrefix[i];
      } else {
        assert name[i] == f[i - 6];
      }
    }
    assert |name[6 + a..6 + b]| == |f[a..b]|;
    forall j | 0 <= j < b - a ensures name[6 + a..6 + b][j] == f[a..b][j] {
      assert f[a + j] == name[6 + a + j];
    }
  }

  /** What follows the digits of the key field is whitespace, the next '_'
      or the end: never a digit. */
  lemma AfterDigits(name: string, f: string, b: nat)
    requires 6 <= |name| && f == UpTo(name[6..], '_') && b <= |f|
    requires b < |f| ==> IsSpace(f[b])
    ensures 6 + b < |name| ==> !IsDigit(name[6 + b])
  {
    var rest := name[6..];
    if 6 + b < |name| {
      if b < |f| {
        assert f[b] == rest[b];
        SpaceIsNoDigit(f[b]);
      } else {
        assert rest[|f|] == '_';
      }
    }
  }

  /** The first digit run of an hours column's name lies in the field after its first '_'. */
  lemma FieldDigits(name: string, f: string, fa: nat, fb: nat)
    requires StartsWith(name, HoursPrefix) && f == UpTo(name[6..], '_')
    requires fa < fb <= |f|
    requires forall i :: 0 <= i < fa ==> !IsDigit(f[i])
    requires AllDigits(f[fa..fb])
    requires fb < |f| ==> IsSpace(f[fb])
    ensures FirstDigitRun(name) == Some(DigitsValue(f[fa..fb]))
  {
    assert name[..6] == HoursPrefix;
    assert f == name[6..6 + |f|];
    ShiftSpan(name, f, fa, fb);
    AfterDigits(name, f, fb);
    FirstDigitRunSpan(name, 6 + fa, 6 + fb);
  }

  /** The day number pandas extracts from an hours column is the magnitude of
      the column's sort key: both read the same digits. */
  lemma DayNumOfKey(name: string)
    requires StartsWith(name, HoursPrefix) && SortKey(name).Some?
    ensures FirstDigitRun(name) == Some(Abs(SortKey(name).value))
  {
    HoursKeyField(name);
    var f := UpTo(name[6..], '_');
    assert SortKey(name) == ParseInt(f);
    var fa, fb := ParseIntSpan(f);
    assert fb < |f| ==> IntSpace(f[fb]);
    FieldDigits(name, f, fa, fb);
    var v := SortKey(name).value;
    assert DigitsValue(f[fa..fb]) == Abs(v);
  }
  lemma SortMembers(s: seq<(string, int)>)
    ensures |SortByKey(s)| == |s|
    ensures forall x :: x in SortByKey(s) <==> x in s
  {
    SortByKeyCorrect(s);
    assert |SortByKey(s)| == |multiset(SortByKey(s))|;
    forall x ensures x in SortByKey(s) <==> x in s {
      assert x in SortByKey(s) <==> x in multiset(SortByKey(s));
    }
  }

  /** The keyed columns are the given columns, each with its own key. */
  lemma KeyedMembers(hc: seq<string>)
    requires Keyed(hc).Some?
    ensures forall c :: c in hc ==> SortKey(c).Some?
    ensures forall x :: x in Keyed(hc).value <==> x.0 in hc && SortKey(x.0) == Some(x.1)
  {
    var keyed := Keyed(hc).value;
    forall c | c in hc ensures SortKey(c).Some? {
      var i :| 0 <= i < |hc| && hc[i] == c;
    }
    forall x: (string, int) | x.0 in hc && SortKey(x.0) == Some(x.1) ensures x in keyed {
      var i :| 0 <= i < |hc| && hc[i] == x.0;
      assert keyed[i] == x;
    }
  }

  /** The day columns are exactly the sheet's hours_ columns, each paired
      with its own key, as many as there are hours_ columns. */
  lemma DayColumnsMembers(columns: seq<string>)
    requires DayColumns(columns).Some?
    ensures |DayColumns(columns).value| == |ColumnsWithPrefix(columns, HoursPrefix)|
    ensures forall c :: c in columns && StartsWith(c, HoursPrefix) ==> SortKey(c).Some?
    ensures forall x :: x in DayColumns(columns).value
                    <==> x.0 in columns && StartsWith(x.0, HoursPrefix) && SortKey(x.0) == Some(x.1)
  {
    var hc := ColumnsWithPrefix(columns, HoursPrefix);
    var keyed := Keyed(hc).value;
    KeyedMembers(hc);
    SortMembers(keyed);
  }

  /** The day columns are in key order, columns of equal key in sheet order. */
  lemma DayColumnsOrder(columns: seq<string>)
    requires DayColumns(columns).Some?
    ensures SortedByKey(DayColumns(columns).value)
    ensures forall v :: OfKey(DayColumns(columns).value, v) == OfKey(Keyed(ColumnsWithPrefix(columns, HoursPrefix)).value, v)
  {
    SortByKeyCorrect(Keyed(ColumnsWithPrefix(columns, HoursPrefix)).value);
  }

  /** Every day column reads as the day number given by its key's digits. */
  lemma DayColumnsDayNum(columns: seq<string>)
    requires DayColumns(columns).Some?
    ensures forall x :: x in DayColumns(columns).value ==> FirstDigitRun(x.0) == Some(Abs(x.1))
  {
    DayColumnsMembers(columns);
    forall x | x in DayColumns(columns).value ensures FirstDigitRun(x.0) == Some(Abs(x.1)) {
      DayNumOfKey(x.0);
    }
  }

  /** Distinct column names give distinct day columns. */
  lemma DayColumnsDistinct(columns: seq<string>)
    requires DayColumns(columns).Some? && Distinct(columns)
    ensures Distinct(Names(DayColumns(columns).value))
  {
    var hc := ColumnsWithPrefix(columns, HoursPrefix);
    var keyed := Keyed(hc).value;
    var cols := SortByKey(keyed);
    WhereDistinct(columns, c => StartsWith(c, HoursPrefix));
    assert Distinct(keyed) by {
      forall i, j | 0 <= i < j < |keyed| ensures keyed[i] != keyed[j] {
        assert keyed[i].0 == hc[i] && keyed[j].0 == hc[j];
      }
    }
    SortByKeyCorrect(keyed);
    DistinctPermutation(keyed, cols);
    DayColumnsMembers(columns);
    forall i, j | 0 <= i < j < |cols| ensures Names(cols)[i] != Names(cols)[j] {
      assert cols[i] in cols && cols[j] in cols;
    }
  }

  /** Every melted record comes from one of the day columns. */
  lemma {:induction false} MeltDays(rows: seq<Row>, dayCols: seq<string>)
    ensures forall r :: r in Melt(rows, dayCols) ==> r.day in dayCols
    decreases |dayCols|
  {
    if dayCols != [] {
      var init := dayCols[..|dayCols| - 1];
      MeltDays(rows, init);
      assert forall c :: c in init ==> c in dayCols;
    }
  }

  /** With one row per employee and distinct day columns, no (employee, day)
      pair is melted twice. */
  lemma {:induction false} MeltUnique(rows: seq<Row>, dayCols: seq<string>)
    requires UniqueIds(rows) && Distinct(dayCols)
    ensures forall p, q :: 0 <= p < q < |Melt(rows, dayCols)| ==>
      Melt(rows, dayCols)[p].id != Melt(rows, dayCols)[q].id || Melt(rows, dayCols)[p].day != Melt(rows, dayCols)[q].day
    decreases |dayCols|
  {
    if dayCols != [] {
      var init := dayCols[..|dayCols| - 1];
      var last := dayCols[|dayCols| - 1];
      var front := Melt(rows, init);
      var block := seq(|rows|, j requires 0 <= j < |rows| => RecordOf(rows[j], last));
      var recs := Melt(rows, dayCols);
      assert recs == front + block;
      assert Distinct(init) by {
        forall i, j | 0 <= i < j < |init| ensures init[i] != init[j] {
          assert init[i] == dayCols[i] && init[j] == dayCols[j];
        }
      }
      MeltUnique(rows, init);
      MeltDays(rows, init);
      assert last !in init by {
        forall k | 0 <= k < |init| ensures init[k] != last {
          assert init[k] == dayCols[k];
        }
      }
      forall p, q | 0 <= p < q < |recs| ensures recs[p].id != recs[q].id || recs[p].day != recs[q].day {
        if q < |front| {
          assert recs[p] == front[p] && recs[q] == front[q];
        } else if p < |front| {
          assert recs[p] == front[p] && recs[p] in front;
          assert recs[q] == block[q - |front|];
          assert recs[p].day in init;
          assert recs[q].day == last;
        } else {
          var i, j := p - |front|, q - |front|;
          assert recs[p] == block[i] && recs[q] == block[j];
          assert rows[i].id != rows[j].id;
        }
      }
    }
  }

  /** The long table exists exactly when every hours_ column has a key: the
      day number then never fails. */
  lemma FactsDefined(t: Sheet, start: int)
    ensures Facts(t, start).Some? <==> DayColumns(t.columns).Some?
  {
    if DayColumns(t.columns).Some? {
      var cols := DayColumns(t.columns).value;
      var recs := Melt(t.rows, Names(cols));
      MeltDays(t.rows, Names(cols));
      DayColumnsDayNum(t.columns);
      forall p | 0 <= p < |recs| ensures Classify(recs[p], start).Some? {
        assert recs[p] in recs;
        var k :| 0 <= k < |cols| && Names(cols)[k] == recs[p].day;
        assert cols[k] in cols;
      }
    }
  }

  /** Record k * |rows| + j of the long table is row j under day column k:
      the identity fields copied, the cell of that column as hours_worked,
      the day number, its date and the punctuality flag. */
  lemma FactsAt(t: Sheet, start: int, k: nat, j: nat, p: nat)
    requires Facts(t, start).Some? && k < |DayColumns(t.columns).value| && j < |t.rows|
    requires p == k * |t.rows| + j
    ensures var fs := Facts(t, start).value;
      var row := t.rows[j];
      var col := DayColumns(t.columns).value[k];
      var n := Abs(col.1);
      && p < |fs|
      && fs[p] == Fact(row.id, row.gender, row.resident, row.department, col.0, Get(row, col.0),
                       n, start + (n - 1), IsPunctual(Get(row, col.0)))
  {
    var cols := DayColumns(t.columns).value;
    var recs := Melt(t.rows, Names(cols));
    MeltAtPosition(t.rows, Names(cols), k, j, p);
    assert Names(cols)[k] == cols[k].0;
    DayColumnsDayNum(t.columns);
    assert cols[k] in cols;
    assert recs[p] == RecordOf(t.rows[j], cols[k].0);
    FactOfRecord(recs, start, p);
  }

  /** Record f holds the identity fields of row, the name and cell of the
      day column col, and the day number read from col. */
  predicate FactFrom(f: Fact, row: Row, col: (string, int))
  {
    && f.id == row.id && f.gender == row.gender && f.resident == row.resident
    && f.department == row.department
    && f.day == col.0 && f.hours == Get(row, col.0) && f.dayNum == Abs(col.1)
  }

  /** The long table has one record per (day column, row), and record p is
      row p % |rows| under column p / |rows|. */
  lemma FactsShape(t: Sheet, start: int, p: nat)
    requires Facts(t, start).Some?
    ensures |Facts(t, start).value| == |DayColumns(t.columns).value| * |t.rows|
    ensures p < |Facts(t, start).value| ==>
      && |t.rows| > 0 && 0 <= p % |t.rows| < |t.rows| && 0 <= p / |t.rows| < |DayColumns(t.columns).value|
      && p == (p / |t.rows|) * |t.rows| + p % |t.rows|
    ensures p < |Facts(t, start).value| ==>
      FactFrom(Facts(t, start).value[p], t.rows[p % |t.rows|], DayColumns(t.columns).value[p / |t.rows|])
  {
    if p < |Facts(t, start).value| {
      var k, j := QuotientBelow(p, |t.rows|, |DayColumns(t.columns).value|);
      FactsAt(t, start, k, j, p);
    }
  }

  /** With one row per employee and distinct column names, no (employee, day)
      pair occurs twice in the long table. */
  lemma FactsUnique(t: Sheet, start: int)
    requires Facts(t, start).Some? && Distinct(t.columns) && UniqueIds(t.rows)
    ensures var fs := Facts(t, start).value;
      forall p, q :: 0 <= p < q < |fs| ==> fs[p].id != fs[q].id || fs[p].day != fs[q].day
  {
    var cols := DayColumns(t.columns).value;
    var recs := Melt(t.rows, Names(cols));
    var fs := Facts(t, start).value;
    DayColumnsDistinct(t.columns);
    MeltUnique(t.rows, Names(cols));
    ClassifiedFields(recs, start);
  }

  /** The date follows the day number: later days have later dates, and day 1
      is the start date. */
  lemma FactDates(t: Sheet, start: int)
    requires Facts(t, start).Some?
    ensures var fs := Facts(t, start).value;
      && (forall p :: 0 <= p < |fs| ==> fs[p].date == start + (fs[p].dayNum - 1))
      && (forall p :: 0 <= p < |fs| && fs[p].dayNum == 1 ==> fs[p].date == start)
      && (forall p, q :: 0 <= p < |fs| && 0 <= q < |fs| ==>
            (fs[p].dayNum < fs[q].dayNum <==> fs[p].date < fs[q].date))
  {
    var fs := Facts(t, start).value;
    var recs := Melt(t.rows, Names(DayColumns(t.columns).value));
    assert forall p :: 0 <= p < |fs| ==> Classify(recs[p], start) == Some(fs[p]);
  }

  /** A derived hours cell is punctual exactly when both clock times parse and
      the shift lasts at least eight hours. */
  lemma PunctualOfDerived(inCell: Cell, outCell: Cell)
    ensures IsPunctual(HoursCell(inCell, outCell))
        <==> ParseCell(inCell).Some? && ParseCell(outCell).Some?
             && ParseCell(outCell).value - ParseCell(inCell).value >= 480
  {
    if ParseCell(inCell).Some? && ParseCell(outCell).Some? {
      PunctualIffFullShift(ParseCell(inCell).value, ParseCell(outCell).value);
    }
  }
}
