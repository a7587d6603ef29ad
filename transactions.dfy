/** The statements the wrapper sends to the server and the transaction
    state machine they drive: Validated -> InTx -> RolledBack | Committed |
    CommitFailed for the mutating operations (or BeginFailed when the
    transaction cannot be opened), no transaction for reads. */
module Transactions {

  /** The delegated statement of an operation. */
  datatype Stmt =
    | Insert                       // tx.Create(value)
    | InsertInBatches(batchSize: int) // tx.CreateInBatches(value, batchSize)
    | Delete                       // tx.Where(...).Delete(value)
    | Update                       // tx.Where(...).Updates(value)
    | First                        // Where(...).First(...)
    | Count                        // Where(...).Count(&count)
    | Find                         // Find(value), with or without Offset/Limit

  /** One thing sent to the server on the connection. */
  datatype Event =
    | Begin(table: string, ok: bool)
    | Exec(table: string, stmt: Stmt, ok: bool)
    | Commit(ok: bool)
    | Rollback

  datatype Phase = Idle | InTx | BeginFailed | RolledBack | Committed | CommitFailed | Misused

  /** No transaction is open and nothing was sent out of order. */
  predicate Quiescent(p: Phase)
  {
    p != InTx && p != Misused
  }

  function Step(p: Phase, e: Event): Phase
  {
    if p == Misused then Misused
    else match e
      case Begin(_, ok) => if p == InTx then Misused else if ok then InTx else BeginFailed
      case Exec(_, _, _) => p
      case Commit(ok) => if p != InTx then Misused else if ok then Committed else CommitFailed
      case Rollback => if p != InTx then Misused else RolledBack
  }

  /** The phase reached from `p` by sending `es` in order. */
  function Run(p: Phase, es: seq<Event>): Phase
    decreases es
  {
    if es == [] then p else Run(Step(p, es[0]), es[1..])
  }

  lemma {:induction false} RunAppend(p: Phase, a: seq<Event>, b: seq<Event>)
    ensures Run(p, a + b) == Run(Run(p, a), b)
    decreases a
  {
    if a != [] {
      assert (a + b)[0] == a[0];
      assert (a + b)[1..] == a[1..] + b;
      RunAppend(Step(p, a[0]), a[1..], b);
    } else {
      assert a + b == b;
    }
  }

  /** What one mutating operation sends once its argument is valid: Begin;
      if that fails, nothing more (GORM keeps Begin's error in the
      transaction handle, so neither the statement nor Rollback reaches the
      server); otherwise the statement, then Rollback if it failed or Commit
      if it succeeded. */
  function TxEvents(table: string, stmt: Stmt, beginOk: bool, execOk: bool, commitOk: bool): seq<Event>
  {
    [Begin(table, beginOk)]
    + (if !beginOk then []
       else [Exec(table, stmt, execOk)] + (if execOk then [Commit(commitOk)] else [Rollback]))
  }

  /** The phase a mutating operation ends in. */
  function TxResult(beginOk: bool, execOk: bool, commitOk: bool): (p: Phase)
    ensures Quiescent(p) && p != Idle
    ensures p == Committed <==> beginOk && execOk && commitOk
  {
    if !beginOk then BeginFailed
    else if !execOk then RolledBack
    else if commitOk then Committed
    else CommitFailed
  }

  /** From any quiescent phase, a mutating operation's statements open at most
      one transaction and close it: rolled back when the statement fails,
      committed or failed to commit otherwise. */
  lemma TxEventsClose(p: Phase, table: string, stmt: Stmt, beginOk: bool, execOk: bool, commitOk: bool)
    requires Quiescent(p)
    ensures Run(p, TxEvents(table, stmt, beginOk, execOk, commitOk)) == TxResult(beginOk, execOk, commitOk)
  {
    var es := TxEvents(table, stmt, beginOk, execOk, commitOk);
    if !beginOk {
      assert es == [Begin(table, false)];
      assert Run(p, es) == Run(BeginFailed, []);
    } else {
      var last := if execOk then Commit(commitOk) else Rollback;
      assert es == [Begin(table, true), Exec(table, stmt, execOk), last];
      assert Run(p, es) == Run(InTx, es[1..]);
      assert es[1..][1..] == [last];
      assert Run(InTx, es[1..]) == Run(InTx, [last]);
      assert Run(InTx, [last]) == Run(Step(InTx, last), []);
    }
  }

  /** Statements sent outside a transaction (the reads) neither open nor close one. */
  predicate Direct(es: seq<Event>)
  {
    forall i :: 0 <= i < |es| ==> es[i].Exec?
  }

  lemma {:induction false} DirectKeepsPhase(p: Phase, es: seq<Event>)
    requires Direct(es)
    ensures Run(p, es) == p
  {
    if es != [] {
      assert es[0].Exec?;
      DirectKeepsPhase(p, es[1..]);
    }
  }
}
