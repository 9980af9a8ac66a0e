/**
 * Duplicate resolution: exact duplicate rows are dropped, the employee ids
 * that still occur more than once are reported, and one row per id is kept,
 * a row whose total hours (missing hours counted as 0) is the largest.
 */
module Dedup {
  import opened Wrappers
  import opened Strings
  import opened Tables

  /** The helper column that holds each row's total hours while duplicates are resolved. */
  const TotalColumn: string := "total_hours"

  /** drop_duplicates(): the first occurrence of every distinct row, in order. */
  function DistinctRows(rows: seq<Row>): (r: seq<Row>)
    ensures Distinct(r)
    ensures forall x :: x in r <==> x in rows
    decreases |rows|
  {
    if rows == [] then []
    else
      var d := DistinctRows(rows[..|rows| - 1]);
      if rows[|rows| - 1] in d then d else d + [rows[|rows| - 1]]
  }

  /** A table without repeated rows is left as it is, so dropping exact duplicates
      a second time changes nothing. */
  lemma {:induction false} DistinctRowsOfDistinct(rows: seq<Row>)
    requires Distinct(rows)
    ensures DistinctRows(rows) == rows
    decreases |rows|
  {
    if rows != [] {
      var init := rows[..|rows| - 1];
      assert Distinct(init);
      DistinctRowsOfDistinct(init);
      assert rows[|rows| - 1] !in init;
      assert rows == init + [rows[|rows| - 1]];
    }
  }

  /** The number of rows with the given employee id (value_counts()). */
  function CountId(rows: seq<Row>, id: string): nat
    decreases |rows|
  {
    if rows == [] then 0
    else CountId(rows[..|rows| - 1], id) + (if rows[|rows| - 1].id == id then 1 else 0)
  }

  /** value_counts()[value_counts() > 1]: the ids on more than one row. */
  function DuplicateIds(rows: seq<Row>): set<string>
  {
    set r | r in rows && CountId(rows, r.id) > 1 :: r.id
  }

  /** df[df['employee_id'].isin(duplicate_ids.index)]: the rows shown with the warning. */
  function DuplicateRows(rows: seq<Row>): seq<Row>
  {
    Where(rows, (r: Row) => r.id in DuplicateIds(rows))
  }

  lemma {:induction false} CountIdPositive(rows: seq<Row>, id: string)
    ensures CountId(rows, id) > 0 <==> exists i :: 0 <= i < |rows| && rows[i].id == id
    decreases |rows|
  {
    if rows != [] {
      var init := rows[..|rows| - 1];
      CountIdPositive(init, id);
      if exists i :: 0 <= i < |rows| && rows[i].id == id {
        var i :| 0 <= i < |rows| && rows[i].id == id;
        if i < |rows| - 1 { assert init[i].id == id; }
      }
      if exists i :: 0 <= i < |init| && init[i].id == id {
        var i :| 0 <= i < |init| && init[i].id == id;
        assert rows[i].id == id;
      }
    }
  }

  lemma {:induction false} CountIdSeveral(rows: seq<Row>, id: string)
    ensures CountId(rows, id) > 1 <==>
      exists i, j :: 0 <= i < j < |rows| && rows[i].id == id && rows[j].id == id
    decreases |rows|
  {
    if rows != [] {
      var init := rows[..|rows| - 1];
      var last := |rows| - 1;
      CountIdSeveral(init, id);
      CountIdPositive(init, id);
      if CountId(rows, id) > 1 {
        if rows[last].id == id {
          var i :| 0 <= i < |init| && init[i].id == id;
          assert rows[i].id == id;
        } else {
          var i, j :| 0 <= i < j < |init| && init[i].id == id && init[j].id == id;
          assert rows[i].id == id && rows[j].id == id;
        }
      }
      if exists i, j :: 0 <= i < j < |rows| && rows[i].id == id && rows[j].id == id {
        var i, j :| 0 <= i < j < |rows| && rows[i].id == id && rows[j].id == id;
        if j == last {
          assert init[i].id == id;
        } else {
          assert init[i].id == id && init[j].id == id;
        }
      }
    }
  }

  /** The reported ids are exactly those carried by two different rows. */
  lemma DuplicateIdsExactly(rows: seq<Row>, id: string)
    ensures id in DuplicateIds(rows) <==>
      exists i, j :: 0 <= i < j < |rows| && rows[i].id == id && rows[j].id == id
  {
    CountIdSeveral(rows, id);
    if exists i, j :: 0 <= i < j < |rows| && rows[i].id == id && rows[j].id == id {
      var i, j :| 0 <= i < j < |rows| && rows[i].id == id && rows[j].id == id;
      assert rows[i] in rows;
    }
  }

  /** A missing or non-numeric hours value counts as 0 in the sum. */
  function CentiOrZero(c: Cell): int
  {
    if c.Num? then c.centi else 0
  }

  /** df[hours columns].sum(axis=1) for one row, in hundredths. */
  function Total(r: Row, hoursColumns: seq<string>): int
    decreases |hoursColumns|
  {
    if hoursColumns == [] then 0
    else Total(r, hoursColumns[..|hoursColumns| - 1]) + CentiOrZero(Get(r, hoursColumns[|hoursColumns| - 1]))
  }

  function Ids(rows: seq<Row>): set<string>
  {
    set r | r in rows :: r.id
  }

  predicate UniqueIds(rows: seq<Row>)
  {
    forall i, j :: 0 <= i < j < |rows| ==> rows[i].id != rows[j].id
  }

  /**
   * What sort_values('total_hours', ascending=False).drop_duplicates(
   * subset=['employee_id'], keep='first') promises: one row per id, every id
   * kept, every kept row one of the input rows, and no input row of the same
   * id with a larger total. Which of several rows with the largest total is
   * kept, and the order of the result, are left open, as the source's
   * unstable sort leaves them.
   */
  ghost predicate IsBestPerId(before: seq<Row>, after: seq<Row>, hoursColumns: seq<string>)
  {
    && UniqueIds(after)
    && Ids(after) == Ids(before)
    && (forall k :: 0 <= k < |after| ==> after[k] in before)
    && (forall k, j :: 0 <= k < |after| && 0 <= j < |before| && before[j].id == after[k].id ==>
          Total(before[j], hoursColumns) <= Total(after[k], hoursColumns))
  }

  /** The position of the row with the given id. */
  function IndexOfId(rows: seq<Row>, id: string): (r: Option<nat>)
    ensures r.Some? ==> r.value < |rows| && rows[r.value].id == id
    ensures r.None? ==> forall k :: 0 <= k < |rows| ==> rows[k].id != id
  {
    if rows == [] then None
    else if rows[0].id == id then Some(0)
    else match IndexOfId(rows[1..], id)
      case None => None
      case Some(k) => Some(k + 1)
  }

  lemma IdsSnoc(s: seq<Row>, x: Row)
    ensures Ids(s + [x]) == Ids(s) + {x.id}
  {
    assert forall r :: r in s + [x] <==> r in s || r == x;
  }

  lemma IdsReplace(s: seq<Row>, p: nat, x: Row)
    requires p < |s| && s[p].id == x.id
    ensures Ids(s[p := x]) == Ids(s)
  {
    forall id | id in Ids(s) ensures id in Ids(s[p := x]) {
      var r :| r in s && r.id == id;
      var k :| 0 <= k < |s| && s[k] == r;
      if k == p { assert s[p := x][p].id == id; } else { assert s[p := x][k] == r; }
    }
    forall id | id in Ids(s[p := x]) ensures id in Ids(s) {
      var r :| r in s[p := x] && r.id == id;
      var k :| 0 <= k < |s| && s[p := x][k] == r;
      if k == p { assert s[p].id == id; } else { assert s[k] == r; }
    }
  }

  /** The invariant of the scan in KeepMaxPerId after the first i rows. */
  ghost predicate BestSoFar(rows: seq<Row>, i: nat, kept: seq<Row>, hoursColumns: seq<string>)
    requires i <= |rows|
  {
    && UniqueIds(kept)
    && Ids(kept) == Ids(rows[..i])
    && (forall k :: 0 <= k < |kept| ==> kept[k] in rows[..i])
    && (forall k, j :: 0 <= k < |kept| && 0 <= j < i && rows[j].id == kept[k].id ==>
          Total(rows[j], hoursColumns) <= Total(kept[k], hoursColumns))
  }

  /** A row with a new id is appended. */
  lemma StepNewId(rows: seq<Row>, i: nat, kept: seq<Row>, hoursColumns: seq<string>)
    requires i < |rows| && BestSoFar(rows, i, kept, hoursColumns)
    requires forall k :: 0 <= k < |kept| ==> kept[k].id != rows[i].id
    ensures BestSoFar(rows, i + 1, kept + [rows[i]], hoursColumns)
  {
    var r := rows[i];
    assert rows[..i + 1] == rows[..i] + [r];
    IdsSnoc(rows[..i], r);
    IdsSnoc(kept, r);
    forall j | 0 <= j < i ensures rows[j].id != r.id {
      assert rows[j] in rows[..i];
    }
  }

  /** A row of a known id replaces the kept one when its total is larger. */
  lemma StepKnownId(rows: seq<Row>, i: nat, kept: seq<Row>, p: nat, hoursColumns: seq<string>)
    requires i < |rows| && BestSoFar(rows, i, kept, hoursColumns)
    requires p < |kept| && kept[p].id == rows[i].id
    ensures Total(kept[p], hoursColumns) < Total(rows[i], hoursColumns) ==>
      BestSoFar(rows, i + 1, kept[p := rows[i]], hoursColumns)
    ensures Total(rows[i], hoursColumns) <= Total(kept[p], hoursColumns) ==>
      BestSoFar(rows, i + 1, kept, hoursColumns)
  {
    var r := rows[i];
    assert rows[..i + 1] == rows[..i] + [r];
    IdsSnoc(rows[..i], r);
    IdsReplace(kept, p, r);
  }

  /** One row per id with the largest total: the first such row, in order of
      first appearance. */
  method KeepMaxPerId(rows: seq<Row>, hoursColumns: seq<string>) returns (kept: seq<Row>)
    ensures IsBestPerId(rows, kept, hoursColumns)
  {
    kept := [];
    var i := 0;
    while i < |rows|
      invariant 0 <= i <= |rows|
      invariant BestSoFar(rows, i, kept, hoursColumns)
    {
      match IndexOfId(kept, rows[i].id) {
        case None =>
          StepNewId(rows, i, kept, hoursColumns);
          kept := kept + [rows[i]];
        case Some(p) =>
          StepKnownId(rows, i, kept, p, hoursColumns);
          if Total(kept[p], hoursColumns) < Total(rows[i], hoursColumns) {
            kept := kept[p := rows[i]];
          }
      }
      i := i + 1;
    }
    assert rows[..i] == rows;
  }

  /** Rows with distinct ids are distinct rows, one per id. */
  lemma {:induction false} UniqueIdsCount(rows: seq<Row>)
    requires UniqueIds(rows)
    ensures |Ids(rows)| == |rows|
    decreases |rows|
  {
    if rows != [] {
      var init := rows[..|rows| - 1];
      var last := rows[|rows| - 1];
      UniqueIdsCount(init);
      assert rows == init + [last];
      IdsSnoc(init, last);
      assert last.id !in Ids(init) by {
        forall r | r in init ensures r.id != last.id {
          var i :| 0 <= i < |init| && init[i] == r;
          assert rows[i] == r;
        }
      }
    }
  }

  lemma {:induction false} DistinctMultiset(s: seq<Row>, x: Row)
    requires Distinct(s)
    ensures multiset(s)[x] == if x in s then 1 else 0
    decreases |s|
  {
    if s != [] {
      var init := s[..|s| - 1];
      assert s == init + [s[|s| - 1]];
      assert Distinct(init);
      DistinctMultiset(init, x);
    }
  }

  /** Resolving duplicates twice gives back the same rows (up to their order,
      which the source leaves open): the second pass has no duplicates left. */
  lemma ResolutionIdempotent(a: seq<Row>, b: seq<Row>, c: seq<Row>, hoursColumns: seq<string>)
    requires IsBestPerId(a, b, hoursColumns) && IsBestPerId(b, c, hoursColumns)
    ensures multiset(c) == multiset(b)
  {
    forall x | x in b ensures x in c {
      assert x.id in Ids(b);
      assert x.id in Ids(c);
      var y :| y in c && y.id == x.id;
      var i :| 0 <= i < |b| && b[i] == x;
      var j :| 0 <= j < |b| && b[j] == y;
      assert i == j;
    }
    assert Distinct(b) && Distinct(c);
    forall x ensures multiset(c)[x] == multiset(b)[x] {
      DistinctMultiset(b, x);
      DistinctMultiset(c, x);
    }
  }

  /** A row whose total is strictly larger than that of every other row with its
      id is the one that is kept. */
  lemma StrictMaxKept(before: seq<Row>, after: seq<Row>, hoursColumns: seq<string>, r: Row)
    requires IsBestPerId(before, after, hoursColumns)
    requires r in before
    requires forall x :: x in before && x.id == r.id && x != r ==> Total(x, hoursColumns) < Total(r, hoursColumns)
    ensures r in after
  {
    assert r.id in Ids(before);
    var y :| y in after && y.id == r.id;
    var k :| 0 <= k < |after| && after[k] == y;
    var j :| 0 <= j < |before| && before[j] == r;
    assert Total(r, hoursColumns) <= Total(y, hoursColumns);
  }

  /** Two rows for one employee, totalling 7.0 and 9.0 hours: only the 9.0 row remains. */
  lemma TwoRowsKeepLarger(a: Row, b: Row, after: seq<Row>, hoursColumns: seq<string>)
    requires a.id == b.id
    requires Total(a, hoursColumns) == 700 && Total(b, hoursColumns) == 900
    requires IsBestPerId([a, b], after, hoursColumns)
    ensures after == [b]
  {
    StrictMaxKept([a, b], after, hoursColumns, b);
    UniqueIdsCount(after);
    assert Ids([a, b]) == {a.id};
    assert |after| == 1;
    assert after[0] in [a, b];
  }

  /** The helper column dropped again from every row (df.drop(columns='total_hours')). */
  function DropColumn(rows: seq<Row>, name: string): (r: seq<Row>)
    ensures |r| == |rows|
    ensures forall k :: 0 <= k < |rows| ==>
      && r[k].id == rows[k].id && r[k].gender == rows[k].gender
      && r[k].resident == rows[k].resident && r[k].department == rows[k].department
      && name !in r[k].cells
      && r[k].cells.Keys == rows[k].cells.Keys - {name}
      && (forall c :: c != name ==> Get(r[k], c) == Get(rows[k], c))
  {
    seq(|rows|, k requires 0 <= k < |rows| => rows[k].(cells := rows[k].cells - {name}))
  }

  /** The column list without the given name. */
  function RemoveName(columns: seq<string>, name: string): (r: seq<string>)
    ensures forall c :: c in r <==> c in columns && c != name
  {
    Where(columns, (c: string) => c != name)
  }

  /** After resolution and the drop of the helper column, the frame has one
      row per id and, when its columns were distinct, still distinct columns:
      what the reshape needs for one record per (employee, day). */
  lemma ResolvedUnique(columns: seq<string>, before: seq<Row>, kept: seq<Row>, hoursColumns: seq<string>)
    requires Distinct(columns) && IsBestPerId(before, kept, hoursColumns)
    ensures Distinct(RemoveName(columns, TotalColumn))
    ensures UniqueIds(DropColumn(kept, TotalColumn))
  {
    WhereDistinct(columns, (c: string) => c != TotalColumn);
    var r := DropColumn(kept, TotalColumn);
    forall i, j | 0 <= i < j < |r| ensures r[i].id != r[j].id {
      assert r[i].id == kept[i].id && r[j].id == kept[j].id;
    }
  }
}
