/** The generic CRUD engine of db.go: the dbOperation methods over an
    abstract store. Each delegated GORM step (insert, delete, update,
    first, count, find, commit) is an `Outcome` the caller supplies; what
    the wrapper does with it is modelled as written, except that QueryList
    uses the offset the code intends where Go's product would wrap around. */
module Database {
  import opened Results
  import opened Validation
  import opened Paging
  import opened Tables
  import opened Transactions

  /** The error of two steps where the second is reached only when the first
      succeeds: the first step's error handed back unchanged, else the
      second's. A transactional operation returns it for its statement and
      Commit, a read for Count and Find. */
  function SequenceError(first: Outcome, second: Outcome): (e: Option<Error>)
    ensures e.None? <==> first.Ok? && second.Ok?
    ensures first.Fail? ==> e == Some(Driver(first.error))
    ensures first.Ok? && second.Fail? ==> e == Some(Driver(second.error))
  {
    if first.Fail? then ErrorOf(first) else ErrorOf(second)
  }

  /** The error a mutating operation returns. A failed Begin leaves its
      error in the transaction handle: the statement is skipped, hands that
      error back, and the Rollback that follows sends nothing. Otherwise the
      statement's error, else the commit's. */
  function TxError(begin: Outcome, exec: Outcome, commit: Outcome): (e: Option<Error>)
    ensures e.None? <==> begin.Ok? && exec.Ok? && commit.Ok?
    ensures begin.Fail? ==> e == Some(Driver(begin.error))
    ensures begin.Ok? ==> e == SequenceError(exec, commit)
  {
    if begin.Fail? then ErrorOf(begin) else SequenceError(exec, commit)
  }

  /** An operation reports success exactly when its transaction committed. */
  lemma TxErrorIffCommitted(begin: Outcome, exec: Outcome, commit: Outcome)
    ensures TxError(begin, exec, commit).None? <==> TxResult(begin.Ok?, exec.Ok?, commit.Ok?) == Committed
  {
  }

  /** What GORM's `First` reports on `rows`: its own failure, the
      not-found sentinel when the filter selects no row, or nothing. */
  function FirstError<R>(rows: seq<R>, where: R -> bool, step: Outcome): (e: Option<DriverError>)
    ensures e.None? <==> step.Ok? && exists x :: x in rows && where(x)
    ensures step.Ok? && e.Some? ==> e == Some(RecordNotFound)
    ensures step.Fail? ==> e == Some(step.error)
  {
    if step.Fail? then Some(step.error)
    else if Matching(rows, where) == [] then Some(RecordNotFound)
    else
      assert Matching(rows, where)[0] in Matching(rows, where);
      None
  }

  /** The row `First` writes to its destination: the first selected row in
      the table's natural order. */
  function FirstRow<R>(rows: seq<R>, where: R -> bool): (r: R)
    requires exists x :: x in rows && where(x)
    ensures r in rows && where(r)
    ensures exists i :: 0 <= i < |rows| && rows[i] == r && forall j :: 0 <= j < i ==> !where(rows[j])
  {
    assert Matching(rows, where) != [];
    MatchingHeadIsFirst(rows, where);
    Matching(rows, where)[0]
  }

  datatype RowResult = RowResult(found: bool, err: Option<Error>)

  /** QueryRow's result contract: "not found" is (false, nil), any other
      driver error is (false, err) with that very error, success is (true, nil). */
  function RowOutcome(e: Option<DriverError>): (r: RowResult)
    ensures r.found <==> e.None?
    ensures !r.found && r.err.None? <==> e == Some(RecordNotFound)
    ensures r.err.Some? ==> e.Some? && r.err == Some(Driver(e.value))
    ensures e.Some? && e.value != RecordNotFound ==> r.err == Some(Driver(e.value))
  {
    if e == Some(RecordNotFound) then RowResult(false, None)
    else if e.Some? then RowResult(false, Some(Driver(e.value)))
    else RowResult(true, None)
  }

  /** A row just inserted is found by any filter it satisfies, and it is the
      row returned when no earlier row of the table is selected. */
  lemma FirstAfterInsert<R>(rows: seq<R>, r: R, where: R -> bool)
    requires where(r)
    ensures RowOutcome(FirstError(rows + [r], where, Ok)) == RowResult(true, None)
    ensures Matching(rows, where) == [] ==> FirstRow(rows + [r], where) == r
  {
    assert r in rows + [r];
    MatchingAfterInsert(rows, [r], where);
    assert Matching([r], where) == [r] by {
      assert [r][1..] == [];
    }
  }

  /** The order QueryList and QueryAll deliver rows in: the given ORDER BY
      when `order` is not empty; otherwise the model takes the store's
      natural order, which SQL itself does not promise. How an
      ORDER BY sorts is the database's business, given as `sortBy`. */
  function Ordered<R>(rows: seq<R>, order: string, sortBy: (string, seq<R>) -> seq<R>): (o: seq<R>)
    ensures order == "" ==> o == rows
    ensures order != "" ==> o == sortBy(order, rows)
  {
    if order != "" then sortBy(order, rows) else rows
  }

  /** When the ORDER BY only rearranges rows, the ordered selection holds
      every selected row, each as often as it is selected, and nothing else. */
  lemma OrderedKeepsRows<R>(rows: seq<R>, where: R -> bool, order: string, sortBy: (string, seq<R>) -> seq<R>)
    requires forall o, s :: multiset(sortBy(o, s)) == multiset(s)
    ensures multiset(Ordered(Matching(rows, where), order, sortBy)) == multiset(Matching(rows, where))
    ensures forall x :: x in Ordered(Matching(rows, where), order, sortBy) <==> x in rows && where(x)
  {
    var m := Matching(rows, where);
    var o := Ordered(m, order, sortBy);
    assert multiset(o) == multiset(m);
    forall x
      ensures x in o <==> x in m
    {
      assert x in o <==> x in multiset(o);
      assert x in m <==> x in multiset(m);
    }
  }

  /** What a read sends: the count, then, unless the count failed (GORM keeps
      the error in the builder and skips the query), the find. */
  function ReadEvents(table: string, countStep: Outcome, findStep: Outcome): (es: seq<Event>)
    ensures Direct(es)
    ensures |es| == if countStep.Ok? then 2 else 1
  {
    [Exec(table, Count, countStep.Ok?)] + (if countStep.Ok? then [Exec(table, Find, findStep.Ok?)] else [])
  }

  /** The count QueryList and QueryAll report: the number of rows the filter
      selects, or 0 when counting failed. Neither page, page size nor order
      enter into it. */
  function ReadCount<R>(rows: seq<R>, where: R -> bool, countStep: Outcome): (n: nat)
    ensures countStep.Ok? ==> n == |Matching(rows, where)| && n <= |rows|
    ensures countStep.Fail? ==> n == 0
  {
    if countStep.Ok? then |Matching(rows, where)| else 0
  }

  /** When the ORDER BY only rearranges rows, QueryAll returns as many rows
      as it counts. */
  lemma AllRowsCounted<R>(rows: seq<R>, where: R -> bool, order: string, sortBy: (string, seq<R>) -> seq<R>)
    requires forall o, s :: |sortBy(o, s)| == |s|
    ensures |Ordered(Matching(rows, where), order, sortBy)| == ReadCount(rows, where, Ok)
  {
  }

  /** A page never holds more rows than the page size nor more than the
      reported total, whatever the page number. */
  lemma PageWithinCount<R>(rows: seq<R>, where: R -> bool, order: string, sortBy: (string, seq<R>) -> seq<R>,
                           page: GoInt, pagesize: GoInt)
    requires forall o, s :: |sortBy(o, s)| == |s|
    ensures var p := Normalise(page, pagesize);
            var w := Window(Ordered(Matching(rows, where), order, sortBy), Offset(p), p.pageSize);
            |w| <= p.pageSize && |w| <= ReadCount(rows, where, Ok)
  {
  }

  /** A handle on one database: `dbOperation`. */
  class DbOperation<R> {
    /** d.db != nil */
    const connected: bool
    /** The committed rows of every table, in natural order. */
    var tables: map<string, seq<R>>
    /** The statements sent on the connection so far, in order. */
    var trace: seq<Event>

    /** No transaction is left open between calls. */
    ghost predicate Valid()
      reads this
    {
      Quiescent(Run(Idle, trace))
    }

    /** A handle over an existing database; how it is opened is not part of the model. */
    constructor (connected: bool, tables: map<string, seq<R>>)
      ensures Valid()
      ensures this.connected == connected && this.tables == tables && trace == []
    {
      this.connected := connected;
      this.tables := tables;
      trace := [];
    }

    /** `tx := d.db.Table(table).Begin()`, then, if the transaction opened,
        the statement and Rollback or Commit. `after` is the table once the statement took effect; it
        becomes durable only when the commit succeeds. */
    method Transact(table: string, stmt: Stmt, begin: Outcome, exec: Outcome, commit: Outcome, after: seq<R>)
      returns (err: Option<Error>)
      requires Valid()
      modifies this
      ensures Valid()
      ensures trace == old(trace) + TxEvents(table, stmt, begin.Ok?, exec.Ok?, commit.Ok?)
      ensures Run(Idle, trace) == TxResult(begin.Ok?, exec.Ok?, commit.Ok?)
      ensures err == TxError(begin, exec, commit)
      ensures tables == if err.None? then old(tables)[table := after] else old(tables)
    {
      ghost var before := trace;
      RunAppend(Idle, before, TxEvents(table, stmt, begin.Ok?, exec.Ok?, commit.Ok?));
      TxEventsClose(Run(Idle, before), table, stmt, begin.Ok?, exec.Ok?, commit.Ok?);
      if begin.Fail? {
        trace := trace + [Begin(table, false)];
        assert trace == before + TxEvents(table, stmt, begin.Ok?, exec.Ok?, commit.Ok?);
        return ErrorOf(begin);
      }
      trace := trace + [Begin(table, true)];
      trace := trace + [Exec(table, stmt, exec.Ok?)];
      if exec.Fail? {
        trace := trace + [Rollback];
        assert trace == before + TxEvents(table, stmt, begin.Ok?, exec.Ok?, commit.Ok?);
        return ErrorOf(exec);
      }
      trace := trace + [Commit(commit.Ok?)];
      assert trace == before + TxEvents(table, stmt, begin.Ok?, exec.Ok?, commit.Ok?);
      if commit.Fail? {
        return ErrorOf(commit);
      }
      tables := tables[table := after];
      return None;
    }

    /** Create: insert one record. */
    method Create(table: string, value: Ref<R>, begin: Outcome, exec: Outcome, commit: Outcome)
      returns (err: Option<Error>)
      requires Valid()
      requires value.Pointer? ==> connected
      modifies this
      ensures Valid()
      ensures !value.Pointer? ==> err == Validate(value, ValueNullMsg) && unchanged(this)
      ensures value.Pointer? ==>
        && trace == old(trace) + TxEvents(table, Insert, begin.Ok?, exec.Ok?, commit.Ok?)
        && Run(Idle, trace) == TxResult(begin.Ok?, exec.Ok?, commit.Ok?)
        && err == TxError(begin, exec, commit)
        && tables == if err.None? then old(tables)[table := Rows(old(tables), table) + [value.cell.value]]
                     else old(tables)
    {
      err := Validate(value, ValueNullMsg);
      if err.Some? {
        return;
      }
      err := Transact(table, Insert, begin, exec, commit, Rows(tables, table) + [value.cell.value]);
    }

    /** CreateInBatches: insert a slice of records, all or nothing. */
    method CreateInBatches(table: string, value: Ref<seq<R>>, batchSize: GoInt, begin: Outcome, exec: Outcome, commit: Outcome)
      returns (err: Option<Error>)
      requires Valid()
      requires value.Pointer? ==> connected
      modifies this
      ensures Valid()
      ensures !value.Pointer? ==> err == Validate(value, ValueNullMsg) && unchanged(this)
      ensures value.Pointer? ==>
        && trace == old(trace) + TxEvents(table, InsertInBatches(batchSize), begin.Ok?, exec.Ok?, commit.Ok?)
        && Run(Idle, trace) == TxResult(begin.Ok?, exec.Ok?, commit.Ok?)
        && err == TxError(begin, exec, commit)
        && tables == if err.None? then old(tables)[table := Rows(old(tables), table) + value.cell.value]
                     else old(tables)
    {
      err := Validate(value, ValueNullMsg);
      if err.Some? {
        return;
      }
      err := Transact(table, InsertInBatches(batchSize), begin, exec, commit, Rows(tables, table) + value.cell.value);
    }

    /** DeleteRow: delete every row the filter selects; the count is
        RowsAffected, reported only once the commit succeeded. */
    method DeleteRow(table: string, value: Ref<R>, where: R -> bool, begin: Outcome, exec: Outcome, commit: Outcome)
      returns (count: nat, err: Option<Error>)
      requires Valid()
      requires value.Pointer? ==> connected
      modifies this
      ensures Valid()
      ensures !value.Pointer? ==> count == 0 && err == Validate(value, ValueNullMsg) && unchanged(this)
      ensures value.Pointer? ==>
        && trace == old(trace) + TxEvents(table, Delete, begin.Ok?, exec.Ok?, commit.Ok?)
        && Run(Idle, trace) == TxResult(begin.Ok?, exec.Ok?, commit.Ok?)
        && err == TxError(begin, exec, commit)
        && count == (if err.None? then |Matching(Rows(old(tables), table), where)| else 0)
        && tables == if err.None? then old(tables)[table := Without(Rows(old(tables), table), where)]
                     else old(tables)
    {
      count := 0;
      err := Validate(value, ValueNullMsg);
      if err.Some? {
        return;
      }
      var rows := Rows(tables, table);
      var affected := |Matching(rows, where)|;
      err := Transact(table, Delete, begin, exec, commit, Without(rows, where));
      if err.None? {
        count := affected;
      }
    }

    /** UpdateRow: merge the patch into every row the filter selects; the
        count is RowsAffected, reported only once the commit succeeded. */
    method UpdateRow(table: string, value: Ref<R>, where: R -> bool, merge: (R, R) -> R,
                     begin: Outcome, exec: Outcome, commit: Outcome)
      returns (count: nat, err: Option<Error>)
      requires Valid()
      requires value.Pointer? ==> connected
      modifies this
      ensures Valid()
      ensures !value.Pointer? ==> count == 0 && err == Validate(value, ValueNullMsg) && unchanged(this)
      ensures value.Pointer? ==>
        && trace == old(trace) + TxEvents(table, Update, begin.Ok?, exec.Ok?, commit.Ok?)
        && Run(Idle, trace) == TxResult(begin.Ok?, exec.Ok?, commit.Ok?)
        && err == TxError(begin, exec, commit)
        && count == (if err.None? then |Matching(Rows(old(tables), table), where)| else 0)
        && tables == if err.None?
                     then old(tables)[table := Patched(Rows(old(tables), table), where, value.cell.value, merge)]
                     else old(tables)
    {
      count := 0;
      err := Validate(value, ValueNullMsg);
      if err.Some? {
        return;
      }
      var rows := Rows(tables, table);
      var affected := |Matching(rows, where)|;
      err := Transact(table, Update, begin, exec, commit, Patched(rows, where, value.cell.value, merge));
      if err.None? {
        count := affected;
      }
    }

    /** QueryRow: the first selected row, outside any transaction. `step` is
        the failure of `First` itself; its not-found comes from the table. */
    method QueryRow(table: string, out: Ref<R>, where: R -> bool, step: Outcome)
      returns (found: bool, err: Option<Error>)
      requires Valid()
      requires out.Pointer? ==> connected
      requires step != Fail(RecordNotFound)
      modifies this, out.Footprint()
      ensures Valid() && tables == old(tables)
      ensures Run(Idle, trace) == old(Run(Idle, trace))
      ensures !out.Pointer? ==> !found && err == Validate(out, OutNullMsg) && trace == old(trace)
      ensures out.Pointer? ==>
        var e := FirstError(Rows(tables, table), where, step);
        && RowResult(found, err) == RowOutcome(e)
        && trace == old(trace) + [Exec(table, First, e.None?)]
        && out.cell.value == if found then FirstRow(Rows(tables, table), where) else old(out.cell.value)
    {
      found := false;
      err := Validate(out, OutNullMsg);
      if err.Some? {
        return;
      }
      var rows := Rows(tables, table);
      var e := FirstError(rows, where, step);
      DirectKeepsPhase(Run(Idle, trace), [Exec(table, First, e.None?)]);
      RunAppend(Idle, trace, [Exec(table, First, e.None?)]);
      trace := trace + [Exec(table, First, e.None?)];
      if e.None? {
        out.cell.value := FirstRow(rows, where);
      }
      var r := RowOutcome(e);
      found, err := r.found, r.err;
    }

    /** QueryList: the total number of selected rows, and one page of them. */
    method QueryList(table: string, order: string, page: GoInt, pagesize: GoInt, out: Ref<seq<R>>,
                     where: R -> bool, sortBy: (string, seq<R>) -> seq<R>,
                     countStep: Outcome, findStep: Outcome)
      returns (count: nat, err: Option<Error>)
      requires Valid()
      requires out.Pointer? ==> connected
      modifies this, out.Footprint()
      ensures Valid() && tables == old(tables)
      ensures Run(Idle, trace) == old(Run(Idle, trace))
      ensures !out.Pointer? ==> count == 0 && err == Validate(out, OutNullMsg) && trace == old(trace)
      ensures out.Pointer? ==>
        var rows, p := Rows(tables, table), Normalise(page, pagesize);
        && count == ReadCount(rows, where, countStep)
        && err == SequenceError(countStep, findStep)
        && trace == old(trace) + ReadEvents(table, countStep, findStep)
        && out.cell.value == if err.None?
                             then Window(Ordered(Matching(rows, where), order, sortBy), Offset(p), p.pageSize)
                             else old(out.cell.value)
    {
      count := 0;
      err := Validate(out, OutNullMsg);
      if err.Some? {
        return;
      }
      var matched := Matching(Rows(tables, table), where);
      var view := matched;
      if order != "" {
        view := sortBy(order, matched);
      }
      ghost var before := trace;
      DirectKeepsPhase(Run(Idle, trace), ReadEvents(table, countStep, findStep));
      RunAppend(Idle, trace, ReadEvents(table, countStep, findStep));
      trace := trace + [Exec(table, Count, countStep.Ok?)];
      if countStep.Ok? {
        count := |matched|;
      }
      var p := Normalise(page, pagesize);
      var offset := Offset(p);
      if countStep.Fail? {
        assert trace == before + ReadEvents(table, countStep, findStep);
        return count, ErrorOf(countStep);
      }
      trace := trace + [Exec(table, Find, findStep.Ok?)];
      assert trace == before + ReadEvents(table, countStep, findStep);
      if findStep.Fail? {
        return count, ErrorOf(findStep);
      }
      out.cell.value := Window(view, offset, p.pageSize);
    }

    /** QueryAll: the number of selected rows, and all of them. */
    method QueryAll(table: string, order: string, out: Ref<seq<R>>,
                    where: R -> bool, sortBy: (string, seq<R>) -> seq<R>,
                    countStep: Outcome, findStep: Outcome)
      returns (count: nat, err: Option<Error>)
      requires Valid()
      requires out.Pointer? ==> connected
      modifies this, out.Footprint()
      ensures Valid() && tables == old(tables)
      ensures Run(Idle, trace) == old(Run(Idle, trace))
      ensures !out.Pointer? ==> count == 0 && err == Validate(out, OutNullMsg) && trace == old(trace)
      ensures out.Pointer? ==>
        var rows := Rows(tables, table);
        && count == ReadCount(rows, where, countStep)
        && err == SequenceError(countStep, findStep)
        && trace == old(trace) + ReadEvents(table, countStep, findStep)
        && out.cell.value == if err.None? then Ordered(Matching(rows, where), order, sortBy)
                             else old(out.cell.value)
    {
      count := 0;
      err := Validate(out, OutNullMsg);
      if err.Some? {
        return;
      }
      var matched := Matching(Rows(tables, table), where);
      var view := matched;
      if order != "" {
        view := sortBy(order, matched);
      }
      ghost var before := trace;
      DirectKeepsPhase(Run(Idle, trace), ReadEvents(table, countStep, findStep));
      RunAppend(Idle, trace, ReadEvents(table, countStep, findStep));
      trace := trace + [Exec(table, Count, countStep.Ok?)];
      if countStep.Ok? {
        count := |matched|;
      }
      if countStep.Fail? {
        assert trace == before + ReadEvents(table, countStep, findStep);
        return count, ErrorOf(countStep);
      }
      trace := trace + [Exec(table, Find, findStep.Ok?)];
      assert trace == before + ReadEvents(table, countStep, findStep);
      if findStep.Fail? {
        return count, ErrorOf(findStep);
      }
      out.cell.value := view;
    }

    /** Close: release the pool. `lookup` is `d.db.DB()`, `closeStep` is
        `sqlDB.Close()`. */
    method Close(lookup: Outcome, closeStep: Outcome) returns (err: Option<Error>)
      ensures !connected ==> err == Some(Text(NilConnectionMsg))
      ensures connected && lookup.Fail? ==> err == Some(Text(NoSqlDbPrefix + Message(lookup.error)))
      ensures connected && lookup.Ok? ==> err == ErrorOf(closeStep)
    {
      if !connected {
        return Some(Text(NilConnectionMsg));
      }
      if lookup.Fail? {
        return Some(Text(NoSqlDbPrefix + Message(lookup.error)));
      }
      return ErrorOf(closeStep);
    }
  }
}
