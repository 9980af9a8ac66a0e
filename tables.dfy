/**
 * The data model of the attendance sheet: a table whose rows carry the four
 * identity fields (employee_id, employee_gender, employee_resident,
 * employee_department) and a cell for every other column, in column order.
 */
module Tables {
  import opened Strings

  /** A cell: text as read from the file, a number in hundredths (hours as the
      derivation rounds them), or pandas' missing value. */
  datatype Cell = Str(s: string) | Num(centi: int) | Blank

  datatype Row = Row(id: string, gender: string, resident: string, department: string,
                     cells: map<string, Cell>)

  datatype Sheet = Sheet(columns: seq<string>, rows: seq<Row>)

  const IdentityColumns: seq<string> :=
    ["employee_id", "employee_gender", "employee_resident", "employee_department"]

  predicate Distinct<T(==)>(s: seq<T>)
  {
    forall i, j :: 0 <= i < j < |s| ==> s[i] != s[j]
  }

  /** Column names are unique, none is an identity field, and every row has a
      cell for exactly the sheet's columns. */
  ghost predicate WellFormed(t: Sheet)
  {
    && Distinct(t.columns)
    && (forall c :: c in t.columns ==> c !in IdentityColumns)
    && (forall r :: r in t.rows ==> r.cells.Keys == set c | c in t.columns)
  }

  /** The cell of row r in column c. */
  function Get(r: Row, c: string): Cell
  {
    if c in r.cells then r.cells[c] else Blank
  }

  /** Boolean-mask selection (df[mask]): the elements that satisfy p, in order. */
  function Where<T(!new)>(s: seq<T>, p: T -> bool): (r: seq<T>)
    ensures |r| <= |s|
    ensures forall x :: x in r <==> x in s && p(x)
  {
    if s == [] then []
    else
      assert s == s[..|s| - 1] + [s[|s| - 1]];
      Where(s[..|s| - 1], p) + (if p(s[|s| - 1]) then [s[|s| - 1]] else [])
  }

  /** Two masks applied one after the other select what their conjunction selects. */
  lemma {:induction false} WhereWhere<T(!new)>(s: seq<T>, p: T -> bool, q: T -> bool, both: T -> bool)
    requires forall x :: both(x) == (p(x) && q(x))
    ensures Where(Where(s, p), q) == Where(s, both)
  {
    if s != [] {
      var init := s[..|s| - 1];
      WhereWhere(init, p, q, both);
      if p(s[|s| - 1]) {
        assert Where(s, p) == Where(init, p) + [s[|s| - 1]];
        assert Where(s, p)[..|Where(s, p)| - 1] == Where(init, p);
      } else {
        assert Where(s, p) == Where(init, p);
      }
    }
  }

  /** Masks that agree on every element select the same elements. */
  lemma {:induction false} WhereCongruent<T(!new)>(s: seq<T>, p: T -> bool, q: T -> bool)
    requires forall x :: x in s ==> p(x) == q(x)
    ensures Where(s, p) == Where(s, q)
  {
    if s != [] {
      WhereCongruent(s[..|s| - 1], p, q);
    }
  }

  /** The columns whose names start with prefix, in sheet order. */
  function ColumnsWithPrefix(columns: seq<string>, prefix: string): (r: seq<string>)
    ensures forall c :: c in r <==> c in columns && StartsWith(c, prefix)
  {
    Where(columns, c => StartsWith(c, prefix))
  }
  /** A mask applied to a sequence without repetitions gives one without repetitions. */
  lemma {:induction false} WhereDistinct<T(!new)>(s: seq<T>, p: T -> bool)
    requires Distinct(s)
    ensures Distinct(Where(s, p))
  {
    if s != [] {
      var init := s[..|s| - 1];
      var last := s[|s| - 1];
      assert Distinct(init) by {
        forall i, j | 0 <= i < j < |init| ensures init[i] != init[j] {
          assert init[i] == s[i] && init[j] == s[j];
        }
      }
      WhereDistinct(init, p);
      forall k | 0 <= k < |init| ensures init[k] != last {
        assert init[k] == s[k];
      }
    }
  }

  lemma {:induction false} DistinctAtMostOnce<T>(s: seq<T>, x: T)
    requires Distinct(s)
    ensures multiset(s)[x] <= 1
  {
    if s != [] {
      var init := s[..|s| - 1];
      var last := s[|s| - 1];
      assert s == init + [last];
      forall k | 0 <= k < |init| ensures init[k] != last {
        assert init[k] == s[k];
      }
      assert Distinct(init) by {
        forall i, j | 0 <= i < j < |init| ensures init[i] != init[j] {
          assert init[i] == s[i] && init[j] == s[j];
        }
      }
      DistinctAtMostOnce(init, x);
    }
  }

  lemma RepeatedTwice<T>(s: seq<T>, i: nat, j: nat)
    requires i < j < |s|
    ensures s[i] == s[j] ==> multiset(s)[s[i]] >= 2
  {
    assert s == s[..j] + [s[j]] + s[j + 1..];
    assert s[..j][i] == s[i];
  }

  /** A reordering of a sequence without repetitions has none either. */
  lemma DistinctPermutation<T>(s: seq<T>, t: seq<T>)
    requires Distinct(s) && multiset(s) == multiset(t)
    ensures Distinct(t)
  {
    forall i, j | 0 <= i < j < |t| ensures t[i] != t[j] {
      DistinctAtMostOnce(s, t[i]);
      RepeatedTwice(t, i, j);
    }
  }
  /** A mask every element satisfies selects everything. */
  lemma {:induction false} WhereAll<T(!new)>(s: seq<T>, p: T -> bool)
    requires forall x :: x in s ==> p(x)
    ensures Where(s, p) == s
  {
    if s != [] {
      var init := s[..|s| - 1];
      assert forall x :: x in init ==> x in s;
      WhereAll(init, p);
      assert s == init + [s[|s| - 1]];
    }
  }

  /** A mask and its negation split a sequence: their counts add up to its length. */
  lemma {:induction false} WhereSplit<T(!new)>(s: seq<T>, p: T -> bool, notP: T -> bool)
    requires forall x :: notP(x) == !p(x)
    ensures |Where(s, p)| + |Where(s, notP)| == |s|
  {
    if s != [] {
      WhereSplit(s[..|s| - 1], p, notP);
    }
  }
}
