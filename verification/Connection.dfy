/** The driver's Connection over an ADO connection: who begins, commits and rolls back, and what becomes durable. */
module Connections {
  import opened Wrappers

  datatype Error = NoConnection | StillInTransaction | AlreadyInTransaction | NotInTransaction

  type Write = int

  /**
   The ADO connection and the server session behind it. A retaining provider starts a new transaction
   by itself after a commit or an abort. There are no nested transactions, and a connection cannot be
   closed inside one.
   */
  class AdoConnection {
    const commitRetaining: bool
    const abortRetaining: bool
    var isOpen: bool
    var depth: nat
    var durable: seq<Write>
    var pending: seq<Write>

    constructor (commitRetaining: bool, abortRetaining: bool, durable: seq<Write>)
      ensures isOpen && depth == 0 && this.durable == durable && pending == []
      ensures this.commitRetaining == commitRetaining && this.abortRetaining == abortRetaining
    {
      this.commitRetaining, this.abortRetaining := commitRetaining, abortRetaining;
      isOpen, depth, pending := true, 0, [];
      this.durable := durable;
    }

    method BeginTrans() returns (level: Result<nat, Error>)
      modifies this
      ensures isOpen == old(isOpen) && durable == old(durable) && pending == old(pending)
      ensures old(isOpen && depth == 0) ==> level == Success(1) && depth == 1
      ensures !old(isOpen && depth == 0) ==> level.Failure? && depth == old(depth)
    {
      if !isOpen { return Failure(NoConnection); }
      if depth != 0 { return Failure(AlreadyInTransaction); }
      depth := 1;
      level := Success(depth);
    }

    method CommitTrans() returns (level: Result<nat, Error>)
      modifies this
      ensures isOpen == old(isOpen)
      ensures old(isOpen && depth > 0) ==>
                && level == Success(depth)
                && durable == old(durable) + old(pending) && pending == []
                && depth == (if commitRetaining then 1 else 0)
      ensures !old(isOpen && depth > 0) ==>
                level.Failure? && durable == old(durable) && pending == old(pending) && depth == old(depth)
    {
      if !isOpen { return Failure(NoConnection); }
      if depth == 0 { return Failure(NotInTransaction); }
      durable, pending := durable + pending, [];
      depth := if commitRetaining then 1 else 0;
      level := Success(depth);
    }

    method RollbackTrans() returns (level: Result<nat, Error>)
      modifies this
      ensures isOpen == old(isOpen) && durable == old(durable)
      ensures old(isOpen && depth > 0) ==> level == Success(depth) && pending == [] && depth == (if abortRetaining then 1 else 0)
      ensures !old(isOpen && depth > 0) ==> level.Failure? && pending == old(pending) && depth == old(depth)
    {
      if !isOpen { return Failure(NoConnection); }
      if depth == 0 { return Failure(NotInTransaction); }
      pending := [];
      depth := if abortRetaining then 1 else 0;
      level := Success(depth);
    }

    method Close() returns (r: Outcome<Error>)
      modifies this
      ensures durable == old(durable) && pending == old(pending) && depth == old(depth)
      ensures old(isOpen && depth == 0) ==> r.Pass? && !isOpen
      ensures !old(isOpen && depth == 0) ==> r.Fail? && isOpen == old(isOpen)
    {
      if !isOpen { return Fail(NoConnection); }
      if depth != 0 { return Fail(StillInTransaction); }
      isOpen := false;
      r := Pass;
    }

    /** A statement that writes: at once in autocommit, else as part of the transaction. */
    method Execute(w: Write) returns (r: Outcome<Error>)
      modifies this
      ensures isOpen == old(isOpen) && depth == old(depth)
      ensures !old(isOpen) ==> r.Fail? && durable == old(durable) && pending == old(pending)
      ensures old(isOpen && depth == 0) ==> r.Pass? && durable == old(durable) + [w] && pending == old(pending)
      ensures old(isOpen && depth > 0) ==> r.Pass? && durable == old(durable) && pending == old(pending) + [w]
    {
      if !isOpen { return Fail(NoConnection); }
      if depth == 0 { durable := durable + [w]; } else { pending := pending + [w]; }
      r := Pass;
    }
  }

  // ---------- What a connection is for ----------

  datatype Operation = Write(w: Write) | Commit | Rollback | SetAutocommit(value: bool) | Close

  /** The simple view: open or not, autocommit or not, what is durable and what is pending. */
  datatype View = View(isOpen: bool, autocommit: bool, durable: seq<Write>, pending: seq<Write>) {

    function Step(op: Operation): View {
      if !isOpen then this
      else match op
        case Write(w) => if autocommit then this.(durable := durable + [w]) else this.(pending := pending + [w])
        case Commit => this.(durable := durable + pending, pending := [])
        case Rollback => this.(pending := [])
        case SetAutocommit(value) => if value == autocommit then this else this.(autocommit := value, pending := [])
        case Close => this.(isOpen := false, pending := [])
    }

    function Run(ops: seq<Operation>): View
      decreases |ops|
    {
      if ops == [] then this else Step(ops[0]).Run(ops[1..])
    }
  }

  class Connection {
    var adoConn: AdoConnection?
    var supportsTransactions: bool
    var transactionLevel: nat
    ghost const ado: AdoConnection

    /** ADO is inside a transaction exactly when the driver supports transactions; once given up, it is closed. */
    ghost predicate Valid()
      reads this, ado
    {
      && (adoConn != null ==> adoConn == ado && ado.isOpen && ado.depth == (if supportsTransactions then 1 else 0))
      && (adoConn == null ==> !ado.isOpen && ado.depth == 0)
      && (ado.depth == 0 ==> ado.pending == [])
    }

    ghost function Abstract(): View
      reads this, ado
    {
      View(ado.isOpen, !supportsTransactions, ado.durable, ado.pending)
    }

    constructor (adoConn: AdoConnection, useTransactions: bool)
      requires adoConn.isOpen && adoConn.depth == 0 && adoConn.pending == []
      modifies adoConn
      ensures ado == adoConn && Valid()
      ensures Abstract() == View(true, !useTransactions, old(adoConn.durable), [])
      ensures transactionLevel == if useTransactions then 1 else 0
    {
      this.adoConn, ado := adoConn, adoConn;
      supportsTransactions := useTransactions;
      transactionLevel := 0;
      new;
      if supportsTransactions {
        var level := adoConn.BeginTrans();
        assert level.Success?;
        transactionLevel := level.value;
      }
    }

    /**
     Leaving transactions aborts the current one. A provider that retains aborts stays inside a new
     transaction, which the driver does not notice: that is the only way to lose the invariant.
     */
    method SetAutocommit(value: bool) returns (r: Outcome<Error>)
      requires Valid()
      modifies this, ado
      ensures Abstract() == old(Abstract()).Step(Operation.SetAutocommit(value))
      ensures r.Pass? <==> adoConn != null || old(supportsTransactions) == !value
      ensures r.Pass? ==> supportsTransactions == !value
      ensures adoConn == old(adoConn)
      ensures Valid() <==> !(old(adoConn != null && supportsTransactions) && value && ado.abortRetaining)
      ensures adoConn == null ==> unchanged(this) && unchanged(ado)
      ensures transactionLevel == if r.Pass? && old(supportsTransactions) != !value then ado.depth else old(transactionLevel)
    {
      if supportsTransactions == !value {
        return Pass;
      }
      if adoConn == null {
        return Fail(NoConnection);
      }
      var level;
      if supportsTransactions {
        level := adoConn.RollbackTrans();
      } else {
        level := adoConn.BeginTrans();
      }
      assert level.Success?;
      transactionLevel := level.value;
      supportsTransactions := !value;
      r := Pass;
    }

    /** The level that is remembered is the one after the commit: a provider that does not retain them has begun again since. */
    method Commit() returns (r: Outcome<Error>)
      requires Valid()
      modifies this, ado
      ensures Valid() && adoConn == old(adoConn) && supportsTransactions == old(supportsTransactions)
      ensures Abstract() == old(Abstract()).Step(Operation.Commit)
      ensures adoConn != null && supportsTransactions ==>
                transactionLevel == (if ado.commitRetaining then 1 else 0) && (transactionLevel == ado.depth <==> ado.commitRetaining)
      ensures r.Pass? <==> adoConn != null || !supportsTransactions
    {
      if !supportsTransactions {
        return Pass;
      }
      if adoConn == null {
        return Fail(NoConnection);
      }
      var level := adoConn.CommitTrans();
      assert level.Success?;
      transactionLevel := level.value;
      if !adoConn.commitRetaining {
        level := adoConn.BeginTrans();
        assert level.Success?;
      }
      r := Pass;
    }

    method Rollback() returns (r: Outcome<Error>)
      requires Valid()
      modifies this, ado
      ensures Valid() && adoConn == old(adoConn) && supportsTransactions == old(supportsTransactions)
      ensures Abstract() == old(Abstract()).Step(Operation.Rollback)
      ensures adoConn != null && supportsTransactions ==> transactionLevel == ado.depth == 1
      ensures r.Pass? <==> adoConn != null
    {
      if adoConn == null {
        return Fail(NoConnection);
      }
      var trancount := adoConn.depth;
      if trancount == 0 {
        return Pass;
      }
      var level := adoConn.RollbackTrans();
      assert level.Success?;
      transactionLevel := level.value;
      if !adoConn.abortRetaining {
        level := adoConn.BeginTrans();
        assert level.Success?;
        transactionLevel := level.value;
      }
      r := Pass;
    }

    /** Closing aborts what is pending; it fails on a provider that retains aborts, which is then still in a transaction. */
    method Close() returns (r: Outcome<Error>)
      requires Valid()
      modifies this, ado
      ensures Valid() && supportsTransactions == old(supportsTransactions)
      ensures r.Pass? <==> old(adoConn) != null && !(supportsTransactions && ado.abortRetaining)
      ensures r.Pass? ==> adoConn == null
      ensures r.Fail? ==> adoConn == old(adoConn) && Abstract() == old(Abstract()).(pending := [])
      ensures r.Pass? ==> Abstract() == old(Abstract()).Step(Operation.Close)
    {
      if adoConn == null {
        return Fail(NoConnection);
      }
      if supportsTransactions {
        var level := adoConn.RollbackTrans();
        assert level.Success?;
        transactionLevel := level.value;
      }
      r := adoConn.Close();
      if r.Pass? {
        adoConn := null;
      }
    }

    method Write(w: Write) returns (r: Outcome<Error>)
      requires Valid()
      modifies this, ado
      ensures Valid() && adoConn == old(adoConn) && supportsTransactions == old(supportsTransactions)
      ensures Abstract() == old(Abstract()).Step(Operation.Write(w))
      ensures r.Pass? <==> adoConn != null
    {
      if adoConn == null {
        return Fail(NoConnection);
      }
      r := adoConn.Execute(w);
    }

    method Perform(op: Operation) returns (r: Outcome<Error>)
      requires Valid() && !ado.abortRetaining
      modifies this, ado
      ensures Valid()
      ensures Abstract() == old(Abstract()).Step(op)
    {
      match op {
        case Write(w) => r := Write(w);
        case Commit => r := Commit();
        case Rollback => r := Rollback();
        case SetAutocommit(value) => r := SetAutocommit(value);
        case Close => r := Close();
      }
    }

    /** Any sequence of calls, failing ones included, leaves what the simple view says. */
    method PerformAll(ops: seq<Operation>)
      requires Valid() && !ado.abortRetaining
      modifies this, ado
      ensures Valid()
      ensures Abstract() == old(Abstract()).Run(ops)
      ensures ado.depth == (if ado.isOpen && supportsTransactions then 1 else 0)
    {
      var i := 0;
      while i < |ops|
        invariant 0 <= i <= |ops|
        invariant Valid()
        invariant old(Abstract()).Run(ops) == Abstract().Run(ops[i..])
      {
        ghost var before := Abstract();
        var outcome := Perform(ops[i]);
        i := i + 1;
      }
    }
  }

  /**
   The life of a connection on a provider of either kind: the outcome does not mention whether
   commits are retaining, so no caller can tell the two apart.
   */
  method Session(commitRetaining: bool, useTransactions: bool, durable: seq<Write>, ops: seq<Operation>)
    returns (isOpen: bool, autocommit: bool, after: seq<Write>)
    ensures
      var end := View(true, !useTransactions, durable, []).Run(ops);
      isOpen == end.isOpen && autocommit == end.autocommit && after == end.durable
  {
    var ado := new AdoConnection(commitRetaining, false, durable);
    var connection := new Connection(ado, useTransactions);
    connection.PerformAll(ops);
    isOpen, autocommit, after := ado.isOpen, !connection.supportsTransactions, ado.durable;
  }

  // ---------- The simple view over whole runs ----------

  lemma {:induction false} RunConcat(v: View, ops: seq<Operation>, more: seq<Operation>)
    ensures v.Run(ops + more) == v.Run(ops).Run(more)
    decreases |ops|
  {
    if ops == [] {
      assert ops + more == more;
    } else {
      assert (ops + more)[1..] == ops[1..] + more;
      RunConcat(v.Step(ops[0]), ops[1..], more);
    }
  }

  /** What is durable stays durable, whatever happens. */
  lemma {:induction false} DurableOnlyGrows(v: View, ops: seq<Operation>)
    ensures v.durable <= v.Run(ops).durable
    decreases |ops|
  {
    if ops != [] {
      DurableOnlyGrows(v.Step(ops[0]), ops[1..]);
    }
  }

  function Writes(ws: seq<Write>): seq<Operation> {
    if ws == [] then [] else [Operation.Write(ws[0])] + Writes(ws[1..])
  }

  lemma RunCons(v: View, op: Operation, ops: seq<Operation>)
    ensures v.Run([op] + ops) == v.Step(op).Run(ops)
    ensures v.Run([]) == v
  {
    assert ([op] + ops)[1..] == ops;
  }

  lemma {:induction false} WritesArePending(v: View, ws: seq<Write>)
    requires v.isOpen
    ensures v.Run(Writes(ws)) == if v.autocommit then v.(durable := v.durable + ws) else v.(pending := v.pending + ws)
    decreases |ws|
  {
    hide View.Run;
    if ws == [] {
      RunCons(v, Operation.Commit, []);
      assert v.durable + [] == v.durable && v.pending + [] == v.pending;
    } else {
      var v1 := v.Step(Operation.Write(ws[0]));
      RunCons(v, Operation.Write(ws[0]), Writes(ws[1..]));
      WritesArePending(v1, ws[1..]);
      assert v.durable + [ws[0]] + ws[1..] == v.durable + ws;
      assert v.pending + [ws[0]] + ws[1..] == v.pending + ws;
    }
  }

  /** Outside autocommit a transaction is all or nothing: commit keeps every write since the last one, anything else keeps none. */
  lemma AllOrNothing(v: View, ws: seq<Write>, end: Operation)
    requires v.isOpen && !v.autocommit && v.pending == []
    requires end.Commit? || end.Rollback? || end.Close? || end == Operation.SetAutocommit(true)
    ensures v.Run(Writes(ws) + [end]).durable == if end.Commit? then v.durable + ws else v.durable
    ensures v.Run(Writes(ws) + [end]).pending == []
  {
    RunConcat(v, Writes(ws), [end]);
    WritesArePending(v, ws);
    assert [] + ws == ws;
    var before := v.Run(Writes(ws));
    assert before.Run([end]) == before.Step(end).Run([]);
  }

  /** Switching is what it says: the value asked for holds afterwards, and whatever was pending is gone when it changes. */
  lemma SwitchedTo(v: View, value: bool)
    requires v.isOpen
    ensures
      var after := v.Run([Operation.SetAutocommit(value)]);
      && after.isOpen && after.autocommit == value && after.durable == v.durable
      && after.pending == if value == v.autocommit then v.pending else []
  {
    RunCons(v, Operation.SetAutocommit(value), []);
    assert [Operation.SetAutocommit(value)] + [] == [Operation.SetAutocommit(value)];
  }

  /** From autocommit: after switching it off a commit keeps all writes, and a rollback or closing none. */
  lemma SwitchingOffStartsTransaction(v: View, ws: seq<Write>, end: Operation)
    requires v.isOpen && v.autocommit && v.pending == []
    requires end.Commit? || end.Rollback? || end.Close? || end == Operation.SetAutocommit(true)
    ensures
      var after := v.Run([Operation.SetAutocommit(false)] + (Writes(ws) + [end]));
      after.durable == (if end.Commit? then v.durable + ws else v.durable) && after.pending == []
  {
    SwitchedTo(v, false);
    var off := [Operation.SetAutocommit(false)];
    RunConcat(v, off, Writes(ws) + [end]);
    AllOrNothing(v.Run(off), ws, end);
  }

  /** In autocommit every write is durable at once, and what ends a transaction changes nothing. */
  lemma AutocommitKeepsWrites(v: View, ws: seq<Write>, end: Operation)
    requires v.isOpen && v.autocommit && v.pending == []
    ensures end.Commit? || end.Rollback? || end.Close? || end.SetAutocommit? ==>
              v.Run(Writes(ws) + [end]).durable == v.durable + ws
    ensures v.Run(Writes(ws)).durable == v.durable + ws
  {
    WritesArePending(v, ws);
    RunConcat(v, Writes(ws), [end]);
    var before := v.Run(Writes(ws));
    assert before.Run([end]) == before.Step(end).Run([]);
  }

  /** A closed connection stays as it is. */
  lemma {:induction false} ClosedStays(v: View, ops: seq<Operation>)
    ensures var closed := v.Run([Operation.Close]);
            !closed.isOpen && (!v.isOpen || closed.pending == []) && closed.durable == v.durable && closed.Run(ops) == closed
    decreases |ops|
  {
    RunCons(v, Operation.Close, []);
    assert [Operation.Close] + [] == [Operation.Close];
    if ops != [] {
      ClosedStays(v, ops[1..]);
    }
  }
}
