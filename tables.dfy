/** The committed contents of the store and what the delegated GORM steps
    do to one table's rows. Rows are kept in the store's natural (primary
    key) order; a filter is the meaning of `Where(query, args...)`. */
module Tables {

  /** The rows of table `t`; a table the store holds nothing for reads as empty. */
  function Rows<R>(tables: map<string, seq<R>>, t: string): (r: seq<R>)
    ensures t in tables ==> r == tables[t]
    ensures t !in tables ==> r == []
  {
    if t in tables then tables[t] else []
  }

  /** A statement on `Table(t)` touches that table only: storing `x` as
      table `t` gives back `x` for `t`, and every other table as it was. */
  lemma RowsOfStore<R>(tables: map<string, seq<R>>, t: string, x: seq<R>, u: string)
    ensures Rows(tables[t := x], t) == x
    ensures u != t ==> Rows(tables[t := x], u) == Rows(tables, u)
  {
  }

  /** The rows the filter selects, in table order. */
  function Matching<R>(rows: seq<R>, where: R -> bool): (m: seq<R>)
    ensures |m| <= |rows|
    ensures forall x :: x in m ==> x in rows && where(x)
    ensures forall x :: x in rows && where(x) ==> x in m
  {
    if rows == [] then []
    else (if where(rows[0]) then [rows[0]] else []) + Matching(rows[1..], where)
  }

  /** Where selects each row at most as often as the table holds it. */
  lemma {:induction false} MatchingWithinTable<R>(rows: seq<R>, where: R -> bool)
    ensures multiset(Matching(rows, where)) <= multiset(rows)
  {
    if rows != [] {
      MatchingWithinTable(rows[1..], where);
      assert rows == [rows[0]] + rows[1..];
    }
  }

  /** The first selected row is the earliest row of the table the filter
      accepts: no row before it is accepted. */
  lemma {:induction false} MatchingHeadIsFirst<R>(rows: seq<R>, where: R -> bool)
    requires Matching(rows, where) != []
    ensures exists i :: 0 <= i < |rows| && rows[i] == Matching(rows, where)[0]
                        && forall j :: 0 <= j < i ==> !where(rows[j])
  {
    if !where(rows[0]) {
      MatchingHeadIsFirst(rows[1..], where);
      var i :| 0 <= i < |rows[1..]| && rows[1..][i] == Matching(rows[1..], where)[0]
               && forall j :: 0 <= j < i ==> !where(rows[1..][j]);
      assert rows[i + 1] == Matching(rows, where)[0];
      assert forall j :: 0 <= j < i + 1 ==> !where(rows[j]) by {
        forall j | 0 <= j < i + 1
          ensures !where(rows[j])
        {
          if j > 0 {
            assert rows[j] == rows[1..][j - 1];
          }
        }
      }
    } else {
      assert rows[0] == Matching(rows, where)[0];
    }
  }

  /** The rows the filter does not select: what a filtered DELETE leaves. */
  function Without<R>(rows: seq<R>, where: R -> bool): (m: seq<R>)
    ensures forall x :: x in m ==> x in rows && !where(x)
    ensures forall x :: x in rows && !where(x) ==> x in m
  {
    Matching(rows, x => !where(x))
  }

  /** The selected and the remaining rows split the table: the number of rows
      a DELETE removes is the number the filter matches. */
  lemma {:induction false} SplitCount<R>(rows: seq<R>, where: R -> bool)
    ensures |Matching(rows, where)| + |Without(rows, where)| == |rows|
  {
    if rows != [] {
      SplitCount(rows[1..], where);
    }
  }

  /** A filter that selects nothing deletes nothing. */
  lemma {:induction false} WithoutNothing<R>(rows: seq<R>, where: R -> bool)
    requires Matching(rows, where) == []
    ensures Without(rows, where) == rows
  {
    if rows != [] {
      assert rows[0] in rows;
      WithoutNothing(rows[1..], where);
    }
  }

  /** What `Updates(patch)` makes of the table: every selected row is merged
      with the patch (which fields a merge touches is GORM's business,
      given as `merge`), every other row stays as it was, in place. */
  function Patched<R>(rows: seq<R>, where: R -> bool, patch: R, merge: (R, R) -> R): (u: seq<R>)
    ensures |u| == |rows|
    ensures forall i :: 0 <= i < |rows| && !where(rows[i]) ==> u[i] == rows[i]
    ensures forall i :: 0 <= i < |rows| && where(rows[i]) ==> u[i] == merge(rows[i], patch)
  {
    if rows == [] then []
    else [if where(rows[0]) then merge(rows[0], patch) else rows[0]]
         + Patched(rows[1..], where, patch, merge)
  }

  /** An update whose filter selects nothing leaves the table as it was. */
  lemma {:induction false} PatchNothing<R>(rows: seq<R>, where: R -> bool, patch: R, merge: (R, R) -> R)
    requires Matching(rows, where) == []
    ensures Patched(rows, where, patch, merge) == rows
  {
    if rows != [] {
      assert rows[0] in rows;
      PatchNothing(rows[1..], where, patch, merge);
    }
  }

  /** A row just inserted is among the rows any filter it satisfies selects,
      and the rows selected before are still selected first. */
  lemma {:induction false} MatchingAfterInsert<R>(rows: seq<R>, extra: seq<R>, where: R -> bool)
    ensures Matching(rows + extra, where) == Matching(rows, where) + Matching(extra, where)
  {
    if rows == [] {
      assert rows + extra == extra;
    } else {
      assert (rows + extra)[1..] == rows[1..] + extra;
      MatchingAfterInsert(rows[1..], extra, where);
    }
  }
}
