/**
 * Duration derivation: for every (in_k, out_k) column pair, matched by
 * position, a column hours_k holding the worked hours of each row, rounded to
 * two decimals, or missing when either time does not parse.
 */
module Derivation {
  import opened Wrappers
  import opened Strings
  import opened Clock
  import opened Tables

  const InPrefix: string := "in_"
  const OutPrefix: string := "out_"
  const HoursPrefix: string := "hours_"

  /** Eight hours, in hundredths of an hour. */
  const PunctualCenti: int := 800

  /** zip(a, b): pairs by position, as many as the shorter list has. */
  function Zip<A, B>(a: seq<A>, b: seq<B>): (r: seq<(A, B)>)
    ensures |r| == if |a| <= |b| then |a| else |b|
    ensures forall k :: 0 <= k < |r| ==> r[k] == (a[k], b[k])
  {
    if a == [] || b == [] then [] else [(a[0], b[0])] + Zip(a[1..], b[1..])
  }

  /** in_col.replace('in_', 'hours_'). */
  function HoursName(c: string): string
  {
    ReplaceAll(c, InPrefix, HoursPrefix)
  }

  /** The name given to the hours of an in_ column starts with hours_, so it is
      never an in_, out_ or identity column, nor the helper total_hours. */
  lemma HoursNameOfIn(c: string)
    requires StartsWith(c, InPrefix)
    ensures StartsWith(HoursName(c), HoursPrefix)
    ensures HoursName(c)[0] == 'h'
    ensures !StartsWith(HoursName(c), InPrefix) && !StartsWith(HoursName(c), OutPrefix)
    ensures HoursName(c) !in IdentityColumns
  {
    assert c[..3] == InPrefix;
    var h := HoursName(c);
    assert h == HoursPrefix + ReplaceAll(c[3..], InPrefix, HoursPrefix);
    assert h[..6] == HoursPrefix;
    assert h[0] == 'h';
    assert forall x :: x in IdentityColumns ==> x[0] == 'e';
  }

  /**
   * (out - in).total_seconds() / 3600 rounded to two decimals, in hundredths,
   * for clock times given in minutes: the integer nearest to 5 * (out - in) / 3.
   * A third never rounds half-way, so no tie-breaking rule is involved. Nothing
   * corrects an out time earlier than the in time: the result is then negative.
   */
  function CentiHours(inMinute: int, outMinute: int): (r: int)
    ensures -1 <= 3 * r - 5 * (outMinute - inMinute) <= 1
  {
    (5 * (outMinute - inMinute) + 1) / 3
  }

  /** Rounded hours reach eight exactly when the shift lasts at least 480 minutes. */
  lemma PunctualIffFullShift(inMinute: int, outMinute: int)
    ensures CentiHours(inMinute, outMinute) >= PunctualCenti <==> outMinute - inMinute >= 480
  {
  }

  /** "09:00 AM" to "05:30 PM" is 8.5 hours; "02:00 PM" to "09:00 AM" is -5.0 hours. */
  lemma ScenarioHours()
    ensures CentiHours(540, 1050) == 850
    ensures CentiHours(840, 540) == -500
  {
  }

  /** The clock value of a cell; text that does not parse, numbers and missing
      values all become NaT. */
  function ParseCell(c: Cell): (r: Option<int>)
    ensures r.Some? ==> c.Str? && r == ParseClock(c.s)
  {
    if c.Str? then ParseClock(c.s) else None
  }

  /** The hours cell derived from one row's in and out cells. */
  function HoursCell(inCell: Cell, outCell: Cell): (r: Cell)
    ensures r.Num? || r.Blank?
    ensures r.Num? <==> ParseCell(inCell).Some? && ParseCell(outCell).Some?
    ensures r.Num? ==> -1 <= 3 * r.centi - 5 * (ParseCell(outCell).value - ParseCell(inCell).value) <= 1
  {
    match (ParseCell(inCell), ParseCell(outCell))
    case (Some(i), Some(o)) => Num(CentiHours(i, o))
    case _ => Blank
  }

  function SetCell(r: Row, name: string, v: Cell): Row
  {
    r.(cells := r.cells[name := v])
  }

  /** df[name] = values: replaces the column in place when it exists, appends it otherwise. */
  function AssignColumn(t: Sheet, name: string, values: seq<Cell>): Sheet
    requires |values| == |t.rows|
  {
    Sheet(if name in t.columns then t.columns else t.columns + [name],
          seq(|t.rows|, j requires 0 <= j < |t.rows| => SetCell(t.rows[j], name, values[j])))
  }

  /** The hours of every row for one (in, out) pair. */
  function HoursValues(t: Sheet, inCol: string, outCol: string): (v: seq<Cell>)
    ensures |v| == |t.rows|
  {
    seq(|t.rows|, j requires 0 <= j < |t.rows| => HoursCell(Get(t.rows[j], inCol), Get(t.rows[j], outCol)))
  }

  /** One iteration of the loop over the zipped columns. */
  function PairStep(t: Sheet, p: (string, string)): Sheet
  {
    AssignColumn(t, HoursName(p.0), HoursValues(t, p.0, p.1))
  }

  /** The loop over the given pairs, in order. */
  function ApplyPairs(t: Sheet, ps: seq<(string, string)>): Sheet
    decreases |ps|
  {
    if ps == [] then t else PairStep(ApplyPairs(t, ps[..|ps| - 1]), ps[|ps| - 1])
  }

  /** zip(in_cols, out_cols) over the sheet's columns. */
  function HourPairs(t: Sheet): seq<(string, string)>
  {
    Zip(ColumnsWithPrefix(t.columns, InPrefix), ColumnsWithPrefix(t.columns, OutPrefix))
  }

  /** The sheet after the whole derivation loop. */
  function DeriveHours(t: Sheet): Sheet
  {
    ApplyPairs(t, HourPairs(t))
  }

  /** Every pair joins an in_ column with an out_ column. */
  ghost predicate PairsOk(ps: seq<(string, string)>)
  {
    forall k :: 0 <= k < |ps| ==> StartsWith(ps[k].0, InPrefix) && StartsWith(ps[k].1, OutPrefix)
  }

  function HoursNames(ps: seq<(string, string)>): (ns: seq<string>)
    ensures |ns| == |ps|
    ensures forall k :: 0 <= k < |ps| ==> ns[k] == HoursName(ps[k].0)
  {
    seq(|ps|, k requires 0 <= k < |ps| => HoursName(ps[k].0))
  }

  lemma HourPairsOk(t: Sheet)
    ensures PairsOk(HourPairs(t))
  {
    var ins, outs := ColumnsWithPrefix(t.columns, InPrefix), ColumnsWithPrefix(t.columns, OutPrefix);
    forall k | 0 <= k < |HourPairs(t)|
      ensures StartsWith(HourPairs(t)[k].0, InPrefix) && StartsWith(HourPairs(t)[k].1, OutPrefix)
    {
      assert HourPairs(t)[k] == (ins[k], outs[k]);
      assert ins[k] in ins && outs[k] in outs;
    }
  }

  /** A name that starts with in_ or out_ is never the name of a derived column. */
  lemma NotAnHoursName(ps: seq<(string, string)>, c: string)
    requires PairsOk(ps)
    requires StartsWith(c, InPrefix) || StartsWith(c, OutPrefix)
    ensures c !in HoursNames(ps)
  {
    assert c[0] == 'i' || c[0] == 'o' by {
      if StartsWith(c, InPrefix) { assert c[..3] == InPrefix; } else { assert c[..4] == OutPrefix; }
    }
    forall k | 0 <= k < |ps| ensures HoursNames(ps)[k] != c {
      HoursNameOfIn(ps[k].0);
    }
  }

  /**
   * What the loop keeps: the same rows with the same identity fields, every
   * cell outside the derived columns, and the old columns as a prefix; what it
   * adds: only columns named after the pairs, each pair's name.
   */
  lemma {:induction false} ApplyPairsFrame(t: Sheet, ps: seq<(string, string)>)
    ensures var u := ApplyPairs(t, ps);
      && |u.rows| == |t.rows|
      && (forall j :: 0 <= j < |t.rows| ==>
            u.rows[j].id == t.rows[j].id && u.rows[j].gender == t.rows[j].gender
            && u.rows[j].resident == t.rows[j].resident && u.rows[j].department == t.rows[j].department)
      && (forall j, c :: 0 <= j < |t.rows| && c !in HoursNames(ps) ==> Get(u.rows[j], c) == Get(t.rows[j], c))
      && t.columns <= u.columns
      && (forall c :: c in u.columns ==> c in t.columns || c in HoursNames(ps))
      && (forall k :: 0 <= k < |ps| ==> HoursName(ps[k].0) in u.columns)
    decreases |ps|
  {
    if ps != [] {
      var init := ps[..|ps| - 1];
      ApplyPairsFrame(t, init);
      assert forall c :: c in HoursNames(init) ==> c in HoursNames(ps) by {
        forall c | c in HoursNames(init) ensures c in HoursNames(ps) {
          var k :| 0 <= k < |init| && HoursNames(init)[k] == c;
          assert HoursNames(ps)[k] == c;
        }
      }
      assert HoursNames(ps)[|ps| - 1] == HoursName(ps[|ps| - 1].0);
      var u := ApplyPairs(t, ps);
      forall c | c in u.columns ensures c in t.columns || c in HoursNames(ps) {
        if c !in ApplyPairs(t, init).columns {
          assert c == HoursName(ps[|ps| - 1].0);
        }
      }
      forall k | 0 <= k < |ps| ensures HoursName(ps[k].0) in u.columns {
        if k < |ps| - 1 {
          assert HoursName(init[k].0) in ApplyPairs(t, init).columns;
        }
      }
    }
  }

  /**
   * The derived cell of pair k in row j is HoursCell of that row's original in
   * and out cells, provided no later pair reuses the name (a later pair with
   * the same name overwrites it, as the loop does).
   */
  lemma {:induction false} ApplyPairsCell(t: Sheet, ps: seq<(string, string)>, k: nat, j: nat)
    requires PairsOk(ps)
    requires k < |ps| && j < |t.rows|
    requires forall k' :: k < k' < |ps| ==> HoursName(ps[k'].0) != HoursName(ps[k].0)
    ensures |ApplyPairs(t, ps).rows| == |t.rows|
    ensures Get(ApplyPairs(t, ps).rows[j], HoursName(ps[k].0))
         == HoursCell(Get(t.rows[j], ps[k].0), Get(t.rows[j], ps[k].1))
    decreases |ps|
  {
    var init := ps[..|ps| - 1];
    ApplyPairsFrame(t, init);
    assert PairsOk(init);
    var prev := ApplyPairs(t, init);
    if k == |ps| - 1 {
      NotAnHoursName(init, ps[k].0);
      NotAnHoursName(init, ps[k].1);
      assert Get(prev.rows[j], ps[k].0) == Get(t.rows[j], ps[k].0);
      assert Get(prev.rows[j], ps[k].1) == Get(t.rows[j], ps[k].1);
    } else {
      ApplyPairsCell(t, init, k, j);
      assert init[k] == ps[k];
    }
  }

  /** The loop keeps the sheet well formed. */
  lemma {:induction false} ApplyPairsWellFormed(t: Sheet, ps: seq<(string, string)>)
    requires WellFormed(t) && PairsOk(ps)
    ensures WellFormed(ApplyPairs(t, ps))
    decreases |ps|
  {
    if ps != [] {
      var init := ps[..|ps| - 1];
      assert PairsOk(init);
      ApplyPairsWellFormed(t, init);
      var prev := ApplyPairs(t, init);
      var name := HoursName(ps[|ps| - 1].0);
      HoursNameOfIn(ps[|ps| - 1].0);
      var u := ApplyPairs(t, ps);
      assert u == PairStep(prev, ps[|ps| - 1]);
      forall r | r in u.rows ensures r.cells.Keys == set c | c in u.columns {
        var j :| 0 <= j < |u.rows| && u.rows[j] == r;
        assert r == SetCell(prev.rows[j], name, HoursValues(prev, ps[|ps| - 1].0, ps[|ps| - 1].1)[j]);
        assert prev.rows[j] in prev.rows;
      }
    }
  }

  /** When the derived names are new and pairwise different, the loop adds
      exactly one column per pair, min(#in_, #out_) in all. */
  lemma {:induction false} ApplyPairsCount(t: Sheet, ps: seq<(string, string)>)
    requires Distinct(HoursNames(ps))
    requires forall k :: 0 <= k < |ps| ==> HoursName(ps[k].0) !in t.columns
    ensures ApplyPairs(t, ps).columns == t.columns + HoursNames(ps)
    decreases |ps|
  {
    if ps != [] {
      var init := ps[..|ps| - 1];
      assert HoursNames(init) == HoursNames(ps)[..|ps| - 1];
      ApplyPairsCount(t, init);
      var name := HoursName(ps[|ps| - 1].0);
      assert name !in HoursNames(init) by {
        forall k | 0 <= k < |init| ensures HoursNames(init)[k] != name {
          assert HoursNames(ps)[k] != HoursNames(ps)[|ps| - 1];
        }
      }
      assert HoursNames(ps) == HoursNames(init) + [name];
    }
  }

  /** DeriveHours: the cell of hours column k is derived from in column k and
      out column k of the same row, by position. */
  lemma DeriveHoursCell(t: Sheet, k: nat, j: nat)
    requires k < |HourPairs(t)| && j < |t.rows|
    requires forall k' :: k < k' < |HourPairs(t)| ==> HoursName(HourPairs(t)[k'].0) != HoursName(HourPairs(t)[k].0)
    ensures var ins, outs := ColumnsWithPrefix(t.columns, InPrefix), ColumnsWithPrefix(t.columns, OutPrefix);
      && k < |ins| && k < |outs|
      && |DeriveHours(t).rows| == |t.rows|
      && Get(DeriveHours(t).rows[j], HoursName(ins[k])) == HoursCell(Get(t.rows[j], ins[k]), Get(t.rows[j], outs[k]))
  {
    HourPairsOk(t);
    ApplyPairsCell(t, HourPairs(t), k, j);
  }

  /** DeriveHours keeps the sheet well formed, the rows and their identity
      fields, every other cell, and names exactly one new column per pair when
      the names are new. */
  lemma DeriveHoursShape(t: Sheet)
    requires WellFormed(t)
    ensures WellFormed(DeriveHours(t))
    ensures |DeriveHours(t).rows| == |t.rows|
    ensures forall j, c :: 0 <= j < |t.rows| && c !in HoursNames(HourPairs(t)) ==>
      Get(DeriveHours(t).rows[j], c) == Get(t.rows[j], c)
    ensures Distinct(HoursNames(HourPairs(t))) && (forall c :: c in HoursNames(HourPairs(t)) ==> c !in t.columns) ==>
      |DeriveHours(t).columns| == |t.columns| + |HourPairs(t)|
  {
    HourPairsOk(t);
    ApplyPairsWellFormed(t, HourPairs(t));
    ApplyPairsFrame(t, HourPairs(t));
    var ps := HourPairs(t);
    if Distinct(HoursNames(ps)) && (forall c :: c in HoursNames(ps) ==> c !in t.columns) {
      forall k | 0 <= k < |ps| ensures HoursName(ps[k].0) !in t.columns {
        assert HoursNames(ps)[k] in HoursNames(ps);
      }
      ApplyPairsCount(t, ps);
    }
  }
}
