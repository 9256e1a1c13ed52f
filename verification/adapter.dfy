/**
  Transaction control on a connection handle: `begin`, `commit` and
  `rollback` with an optional savepoint, the scoped `transaction` block, and
  the argument shuffle of `prepare`.

  The handle is seen only through the calls issued to it (a trace) and two
  answers it gives: whether it rejects a call (the driver raises, and the
  extension re-raises that as a Ruby error) and how many transactions are
  open once the block has run.
 */
module Adapter {
  import opened Wrappers
  import opened CString

  /** A call on the handle; `None` is the variant without a savepoint name. */
  datatype Call = Begin(name: Option<string>) | Commit(name: Option<string>) | Rollback(name: Option<string>)

  /** The trace also records when the caller's block ran. */
  datatype Event = HandleCall(call: Call) | RunBlock

  /** How a Ruby call ends. */
  datatype Error =
    | ArgumentError(message: string)
    /** A driver exception, re-raised as a Ruby error with its message. */
    | DriverError(message: string)
    /** The block's own failure, identified by the `rb_protect` status tag. */
    | BlockFailure(tag: int)

  datatype Outcome = Returned(value: bool) | Raised(error: Error)

  /** The savepoint argument as the handle sees it: nil, or the C string of the Ruby string. */
  function Target(savePoint: Option<string>): (t: Option<string>)
    ensures t.None? <==> savePoint.None?
    ensures savePoint.Some? ==> t.value == CStr(savePoint.value) && NUL !in t.value
  {
    match savePoint
    case None => None
    case Some(s) => Some(CStr(s))
  }

  /** `adapter_begin`: the unnamed `begin()` for nil, `begin(name)` otherwise. */
  function BeginCall(savePoint: Option<string>): (c: Call)
    ensures c.Begin?
    ensures c.name.None? <==> savePoint.None?
    ensures savePoint.Some? ==> c.name == Some(CStr(savePoint.value))
  {
    Begin(Target(savePoint))
  }

  /** `adapter_commit` */
  function CommitCall(savePoint: Option<string>): (c: Call)
    ensures c.Commit?
    ensures c.name.None? <==> savePoint.None?
    ensures savePoint.Some? ==> c.name == Some(CStr(savePoint.value))
  {
    Commit(Target(savePoint))
  }

  /** `adapter_rollback` */
  function RollbackCall(savePoint: Option<string>): (c: Call)
    ensures c.Rollback?
    ensures c.name.None? <==> savePoint.None?
    ensures savePoint.Some? ==> c.name == Some(CStr(savePoint.value))
  {
    Rollback(Target(savePoint))
  }

  /** The three direct calls pick the unnamed variant exactly for nil, and the
      same argument addresses the same savepoint in all three. */
  lemma DirectCallsAgree(savePoint: Option<string>)
    ensures BeginCall(savePoint).name.None? <==> savePoint.None?
    ensures CommitCall(savePoint).name == BeginCall(savePoint).name == RollbackCall(savePoint).name
    ensures savePoint.Some? ==> BeginCall(savePoint).name == Some(CStr(savePoint.value))
  {
  }

  /** The name `transaction` works under: the caller's, or "SP" and a fresh UUID. */
  function SavePointName(sp: Option<string>, uuid: string): (name: string)
    ensures sp.None? ==> |name| == |uuid| + 2 && name[..2] == "SP" && name[2..] == uuid
    ensures sp.Some? ==> name == CStr(sp.value)
  {
    match sp
    case None => "SP" + uuid
    case Some(s) => CStr(s)
  }

  /** Two generated names differ when their UUIDs do. */
  lemma GeneratedNamesDiffer(uuid1: string, uuid2: string)
    requires uuid1 != uuid2
    ensures SavePointName(None, uuid1) != SavePointName(None, uuid2)
  {
    assert SavePointName(None, uuid1)[2..] == uuid1;
  }

  /** What the block and the handle do during one `transaction` call: whether
      a block was given, how the block ends (`None` on success, else its
      status tag), the open-transaction count after it, and which handle calls
      the driver rejects (with the message it raises). */
  datatype Scenario = Scenario(
    hasBlock: bool,
    blockFailure: Option<int>,
    openAfter: nat,
    reject: Call -> Option<string>)

  /** One handle call: the trace grows by it, and a rejection ends the `transaction` call. */
  function Issue(trace: seq<Event>, call: Call, sc: Scenario): (r: (seq<Event>, Option<Error>))
    ensures r.0 == trace + [HandleCall(call)]
    ensures r.1.Some? <==> sc.reject(call).Some?
    ensures r.1.Some? ==> r.1.value == DriverError(sc.reject(call).value)
  {
    match sc.reject(call)
    case None => (trace + [HandleCall(call)], None)
    case Some(m) => (trace + [HandleCall(call)], Some(DriverError(m)))
  }

  /** `adapter_transaction(sp) { block }`: the events issued and how the call ends. */
  function Transaction(sp: Option<string>, uuid: string, sc: Scenario): (r: (seq<Event>, Outcome))
    ensures |r.0| <= 3
    ensures r.1.Returned? ==> r.1.value && RunBlock in r.0
    ensures (RunBlock in r.0) <==> sc.hasBlock && sc.reject(Begin(Some(SavePointName(sp, uuid)))).None?
  {
    if !sc.hasBlock then ([], Raised(ArgumentError("Transaction called without a block.")))
    else
      var name := Some(SavePointName(sp, uuid));
      var (t1, e1) := Issue([], Begin(name), sc);
      if e1.Some? then (t1, Raised(e1.value))
      else
        var t2 := t1 + [RunBlock];
        if sc.blockFailure.None? && sc.openAfter > 0 then
          var (t3, e3) := Issue(t2, Commit(name), sc);
          (t3, if e3.Some? then Raised(e3.value) else Returned(true))
        else if sc.blockFailure.Some? && sc.openAfter > 0 then
          var (t3, e3) := Issue(t2, Rollback(name), sc);
          (t3, if e3.Some? then Raised(e3.value) else Raised(BlockFailure(sc.blockFailure.value)))
        else (t2, Returned(true))
  }

  /** The shape every `transaction` trace has: nothing at all, or a `begin`
      that either fails alone or is followed by the block and at most one
      `commit` or `rollback`, all on the same named savepoint. */
  predicate Bracketed(trace: seq<Event>, name: string) {
    || trace == []
    || trace == [HandleCall(Begin(Some(name)))]
    || trace == [HandleCall(Begin(Some(name))), RunBlock]
    || trace == [HandleCall(Begin(Some(name))), RunBlock, HandleCall(Commit(Some(name)))]
    || trace == [HandleCall(Begin(Some(name))), RunBlock, HandleCall(Rollback(Some(name)))]
  }

  function Finishes(trace: seq<Event>): nat {
    if trace == [] then 0
    else
      var last := trace[|trace| - 1];
      Finishes(trace[..|trace| - 1]) + (if last.HandleCall? && !last.call.Begin? then 1 else 0)
  }

  /** Every trace is bracketed by its savepoint name and holds at most one
      `commit` or `rollback`; `begin` comes first and precedes the block. */
  lemma TransactionBracketed(sp: Option<string>, uuid: string, sc: Scenario)
    ensures var (trace, _) := Transaction(sp, uuid, sc);
      && Bracketed(trace, SavePointName(sp, uuid))
      && Finishes(trace) <= 1
      && (trace != [] ==> trace[0] == HandleCall(Begin(Some(SavePointName(sp, uuid)))))
  {
    var (trace, _) := Transaction(sp, uuid, sc);
    var name := Some(SavePointName(sp, uuid));
    FinishesOfBracketed(name.value);
  }

  lemma FinishesOfBracketed(name: string)
    ensures Finishes([]) == 0
    ensures Finishes([HandleCall(Begin(Some(name)))]) == 0
    ensures Finishes([HandleCall(Begin(Some(name))), RunBlock]) == 0
    ensures Finishes([HandleCall(Begin(Some(name))), RunBlock, HandleCall(Commit(Some(name)))]) == 1
    ensures Finishes([HandleCall(Begin(Some(name))), RunBlock, HandleCall(Rollback(Some(name)))]) == 1
  {
    var b := HandleCall(Begin(Some(name)));
    assert [b, RunBlock, HandleCall(Commit(Some(name)))][..2] == [b, RunBlock];
    assert [b, RunBlock, HandleCall(Rollback(Some(name)))][..2] == [b, RunBlock];
    assert [b, RunBlock][..1] == [b];
    assert [b][..0] == [];
  }

  /** Without a block, ArgumentError is raised before the handle is touched. */
  lemma NoBlockNoCalls(sp: Option<string>, uuid: string, sc: Scenario)
    requires !sc.hasBlock
    ensures Transaction(sp, uuid, sc) == ([], Raised(ArgumentError("Transaction called without a block.")))
  {
  }

  /** A `begin` the driver rejects ends the call before the block runs. */
  lemma RejectedBeginSkipsBlock(sp: Option<string>, uuid: string, sc: Scenario)
    requires sc.hasBlock && sc.reject(Begin(Some(SavePointName(sp, uuid)))).Some?
    ensures var (trace, outcome) := Transaction(sp, uuid, sc);
      && RunBlock !in trace
      && outcome == Raised(DriverError(sc.reject(Begin(Some(SavePointName(sp, uuid)))).value))
  {
  }

  /** The block succeeds with a transaction still open: one `commit`, no
      `rollback`, and the call returns true once the commit is accepted. */
  lemma SuccessCommits(sp: Option<string>, uuid: string, sc: Scenario)
    requires sc.hasBlock && sc.blockFailure.None? && sc.openAfter > 0
    requires sc.reject(Begin(Some(SavePointName(sp, uuid)))).None?
    ensures var name := Some(SavePointName(sp, uuid)); var (trace, outcome) := Transaction(sp, uuid, sc);
      && trace == [HandleCall(Begin(name)), RunBlock, HandleCall(Commit(name))]
      && (outcome == Returned(true) <==> sc.reject(Commit(name)).None?)
  {
  }

  /** The block fails with a transaction still open: one `rollback`, then the
      block's own failure is raised again unchanged, unless the driver
      rejects the rollback, whose error then replaces it. */
  lemma FailureRollsBackAndReraises(sp: Option<string>, uuid: string, sc: Scenario)
    requires sc.hasBlock && sc.blockFailure.Some? && sc.openAfter > 0
    requires sc.reject(Begin(Some(SavePointName(sp, uuid)))).None?
    ensures var name := Some(SavePointName(sp, uuid)); var (trace, outcome) := Transaction(sp, uuid, sc);
      && trace == [HandleCall(Begin(name)), RunBlock, HandleCall(Rollback(name))]
      && (sc.reject(Rollback(name)).None? ==> outcome == Raised(BlockFailure(sc.blockFailure.value)))
      && (sc.reject(Rollback(name)).Some? ==> outcome == Raised(DriverError(sc.reject(Rollback(name)).value)))
  {
  }

  /** No transaction left open after the block: neither `commit` nor
      `rollback`, and the call returns true even when the block failed. */
  lemma ClosedTransactionReturnsTrue(sp: Option<string>, uuid: string, sc: Scenario)
    requires sc.hasBlock && sc.openAfter == 0
    requires sc.reject(Begin(Some(SavePointName(sp, uuid)))).None?
    ensures Transaction(sp, uuid, sc)
            == ([HandleCall(Begin(Some(SavePointName(sp, uuid)))), RunBlock], Returned(true))
  {
    var b := HandleCall(Begin(Some(SavePointName(sp, uuid))));
    assert [] + [b] + [RunBlock] == [b, RunBlock];
  }

  /** The block's failure is raised only when a rollback was issued and accepted. */
  lemma BlockFailureRaisedOnlyAfterRollback(sp: Option<string>, uuid: string, sc: Scenario)
    ensures var name := Some(SavePointName(sp, uuid)); var (trace, outcome) := Transaction(sp, uuid, sc);
      (outcome.Raised? && outcome.error.BlockFailure?) <==>
        (&& sc.hasBlock && sc.blockFailure.Some? && sc.openAfter > 0
         && sc.reject(Begin(name)).None? && sc.reject(Rollback(name)).None?)
    ensures var name := Some(SavePointName(sp, uuid)); var (trace, outcome) := Transaction(sp, uuid, sc);
      outcome.Raised? && outcome.error.BlockFailure? ==>
        && outcome.error.tag == sc.blockFailure.value
        && trace[|trace| - 1] == HandleCall(Rollback(name))
  {
  }

  // ---------------------------------------------------------------------------
  // prepare

  /** The Ruby values `prepare` tells apart: classes from everything else. */
  datatype RubyValue = NilValue | Class(name: string) | Str(text: string) | OtherValue

  datatype Prepared = Prepared(scheme: RubyValue, sql: RubyValue)

  /** `adapter_prepare(scheme, sql = nil)`: one or two arguments; when the first
      is not a class it is the SQL, the scheme is nil and any second argument
      is dropped. */
  function PrepareArgs(args: seq<RubyValue>): (r: Result<Prepared, Error>)
    ensures r.Err? <==> !(1 <= |args| <= 2)
    ensures r.Ok? ==> r.value.scheme.NilValue? || r.value.scheme.Class?
  {
    if |args| < 1 || |args| > 2 then Err(ArgumentError("wrong number of arguments"))
    else
      var scheme := args[0];
      var sql := if |args| == 2 then args[1] else NilValue;
      if !scheme.Class? then Ok(Prepared(NilValue, scheme)) else Ok(Prepared(scheme, sql))
  }

  /** A class first: it is the scheme and the second argument (nil when absent)
      is the SQL. Anything else first: it is the SQL, the scheme is nil, and the
      second argument plays no part. */
  lemma PrepareArgsShuffle(args: seq<RubyValue>)
    requires 1 <= |args| <= 2
    ensures args[0].Class? ==> PrepareArgs(args) == Ok(Prepared(args[0], if |args| == 2 then args[1] else NilValue))
    ensures !args[0].Class? ==> PrepareArgs(args) == Ok(Prepared(NilValue, args[0]))
    ensures !args[0].Class? ==> PrepareArgs(args) == PrepareArgs(args[..1])
  {
  }
}
