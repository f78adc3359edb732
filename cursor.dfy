/**
 * The DB-API cursor: a three-state lifecycle (INITIALIZED, EXECUTED,
 * CLOSED) enforced by guard-then-transition wrappers, and the validation of
 * the SQL text before the statements run.
 *
 * Comment removal, cleaning and splitting of the SQL text, query planning
 * and plan execution are not part of this model: the split statements are
 * given, and the planner is an oracle that says, for one statement and its
 * parameters, what each produced plan returns when executed.
 */
module Cursor {
  import opened Common

  datatype CursorState = Initialized | Executed | Closed

  /** Why a `MissingSqlStatement` was raised. */
  datatype MissingReason = EmptySql | NoStatementFound | NoExecutablePart

  datatype CursorError =
    | InvalidCursorState(required: CursorState)
    | MissingSqlStatement(reason: MissingReason)
    | UnsupportedSyntax
      /** A `None` where an iterable was needed (Python's `TypeError`). */
    | NotIterable

  /** The records of a result set; their content is not modelled. */
  type Rows = seq<nat>
  type Params = seq<string>

  /** For a statement and its parameters: the result of executing each plan, in order. */
  type Planner = (string, Option<Params>) -> seq<Option<Rows>>

  /** One entry of the connection's query history: (operation, success flag, timestamp). */
  datatype HistoryEntry = HistoryEntry(operation: string, success: bool, time: int)

  // ---------------------------------------------------------------------
  // The decorators

  /**
   * `require_state` wrapping `transition_to`: in the wrong state the call
   * fails without running the body; otherwise the body runs, and only if it
   * returns does the state become `target`.
   */
  function Guarded<T>(state: CursorState, required: CursorState, target: CursorState,
                      body: Result<T, CursorError>): (r: (Result<T, CursorError>, CursorState))
    ensures state != required ==> r == (Err(InvalidCursorState(required)), state)
    ensures state == required && body.Ok? ==> r == (body, target)
    ensures state == required && body.Err? ==> r == (body, state)
  {
    if state != required then (Err(InvalidCursorState(required)), state)
    else if body.Ok? then (body, target)
    else (body, state)
  }

  /** A call on a cursor, with whether its body would succeed if it ran. */
  datatype CursorCall = ExecuteCall(bodySucceeds: bool) | ExecuteToArrowCall(bodySucceeds: bool) | CloseCall

  /** The state after `call`, and whether the call ran its body to completion. */
  function Apply(state: CursorState, call: CursorCall): (CursorState, bool)
  {
    var body: Result<(), CursorError> :=
      if call.CloseCall? || call.bodySucceeds then Ok(()) else Err(NotIterable);
    var (res, state') :=
      if call.CloseCall? then Guarded(state, Executed, Closed, body)
      else Guarded(state, Initialized, Executed, body);
    (state', res.Ok?)
  }

  /** The number of `execute`/`execute_to_arrow` calls in `calls` that completed. */
  function CompletedExecutes(state: CursorState, calls: seq<CursorCall>): nat
    decreases |calls|
  {
    if calls == [] then 0
    else
      var (state', ran) := Apply(state, calls[0]);
      (if ran && !calls[0].CloseCall? then 1 else 0) + CompletedExecutes(state', calls[1..])
  }

  function FinalState(state: CursorState, calls: seq<CursorCall>): CursorState
    decreases |calls|
  {
    if calls == [] then state else FinalState(Apply(state, calls[0]).0, calls[1..])
  }

  /** From EXECUTED or CLOSED no execute completes; a closed cursor stays closed. */
  lemma {:induction false} NoExecuteAfterExecuted(state: CursorState, calls: seq<CursorCall>)
    requires state != Initialized
    ensures CompletedExecutes(state, calls) == 0
    ensures state == Closed ==> FinalState(state, calls) == Closed
    ensures FinalState(state, calls) != Initialized
    decreases |calls|
  {
    if calls != [] {
      NoExecuteAfterExecuted(Apply(state, calls[0]).0, calls[1..]);
    }
  }

  /**
   * A new cursor completes at most one execute over any sequence of calls:
   * failed executes leave it INITIALIZED and may be retried, but a
   * completed one moves it to EXECUTED for good.
   */
  lemma {:induction false} ExecutesAtMostOnce(calls: seq<CursorCall>)
    ensures CompletedExecutes(Initialized, calls) <= 1
    ensures CompletedExecutes(Initialized, calls) == 1 <==> FinalState(Initialized, calls) != Initialized
    decreases |calls|
  {
    if calls != [] {
      var (state', ran) := Apply(Initialized, calls[0]);
      if state' == Initialized {
        ExecutesAtMostOnce(calls[1..]);
      } else {
        NoExecuteAfterExecuted(state', calls[1..]);
      }
    }
  }

  // ---------------------------------------------------------------------
  // Statement execution

  /** The history with field 1 (the success flag) of its last entry set to true. */
  function MarkLastSucceeded(history: seq<HistoryEntry>): (h: seq<HistoryEntry>)
    requires |history| > 0
    ensures |h| == |history| && h[..|h| - 1] == history[..|history| - 1]
    ensures h[|h| - 1].success
    ensures h[|h| - 1].operation == history[|history| - 1].operation
    ensures h[|h| - 1].time == history[|history| - 1].time
  {
    history[|history| - 1 := history[|history| - 1].(success := true)]
  }

  /**
   * `_inner_execute` as written: the entry is logged with its success flag
   * already true, so the later update for a statement with results changes
   * nothing. The last plan's result is the statement's result; no plan at
   * all is a statement with no executable part.
   */
  function InnerExecuteAsWritten(operation: string, params: Option<Params>, planner: Planner,
                                 history: seq<HistoryEntry>, now: int): (r: (Result<Option<Rows>, CursorError>, seq<HistoryEntry>))
    ensures operation == "" ==> r == (Err(MissingSqlStatement(EmptySql)), history)
    ensures operation != "" ==> |r.1| == |history| + 1 && r.1[..|history|] == history && r.1[|history|].success
  {
    if operation == "" then (Err(MissingSqlStatement(EmptySql)), history)
    else
      var logged := history + [HistoryEntry(operation, true, now)];
      var plans := planner(operation, params);
      if |plans| == 0 then (Err(MissingSqlStatement(NoExecutablePart)), logged)
      else
        var results := plans[|plans| - 1];
        if results.Some? then (Ok(results), MarkLastSucceeded(logged))
        else (Ok(None), logged)
  }

  /** As written, a statement with no executable part fails but is logged as successful. */
  lemma FailureLoggedAsSuccess()
    ensures var planner: Planner := (s, p) => [];
      var (res, h) := InnerExecuteAsWritten("SELECT", None, planner, [], 0);
      res == Err(MissingSqlStatement(NoExecutablePart)) && h == [HistoryEntry("SELECT", true, 0)] && h[0].success
  {
  }

  /**
   * As written, every non-empty statement is logged as successful whatever
   * its outcome; the result is the one the intended version returns.
   */
  lemma AsWrittenLogsSuccess(operation: string, params: Option<Params>, planner: Planner,
                             history: seq<HistoryEntry>, now: int)
    requires operation != ""
    ensures InnerExecuteAsWritten(operation, params, planner, history, now).1 ==
            history + [HistoryEntry(operation, true, now)]
    ensures InnerExecuteAsWritten(operation, params, planner, history, now).0 ==
            InnerExecute(operation, params, planner, history, now).0
  {
  }

  /**
   * `_inner_execute` as intended: the entry is logged as not yet
   * successful, and only a statement that returns results marks it
   * successful. An empty operation is rejected before anything is logged;
   * any other adds exactly one history entry, for that operation, and the
   * earlier entries are untouched.
   */
  function InnerExecute(operation: string, params: Option<Params>, planner: Planner,
                        history: seq<HistoryEntry>, now: int): (r: (Result<Option<Rows>, CursorError>, seq<HistoryEntry>))
    ensures operation == "" ==> r == (Err(MissingSqlStatement(EmptySql)), history)
    ensures operation != "" ==> r.1 == history + [HistoryEntry(operation, r.0.Ok? && r.0.value.Some?, now)]
    ensures operation != "" && |planner(operation, params)| == 0 ==> r.0 == Err(MissingSqlStatement(NoExecutablePart))
    ensures operation != "" && |planner(operation, params)| > 0 ==>
      r.0 == Ok(planner(operation, params)[|planner(operation, params)| - 1])
  {
    if operation == "" then (Err(MissingSqlStatement(EmptySql)), history)
    else
      var logged := history + [HistoryEntry(operation, false, now)];
      var plans := planner(operation, params);
      if |plans| == 0 then (Err(MissingSqlStatement(NoExecutablePart)), logged)
      else
        var results := plans[|plans| - 1];
        if results.Some? then (Ok(results), MarkLastSucceeded(logged))
        else (Ok(None), logged)
  }

  /**
   * The statement loop from statement `i` on, with the results of the
   * previous statement; every statement but the last has its results
   * consumed, which fails on `None`. The loop only appends to the history,
   * at most one entry per statement; when it succeeds, every statement from
   * `i` on was logged in order, each but the last as successful and the
   * last as successful exactly when it returned results. Statement `k` is
   * logged at `times[k]`, the clock's reading when it starts.
   */
  function RunFrom(statements: seq<string>, i: nat, params: Option<Params>, planner: Planner,
                   history: seq<HistoryEntry>, times: seq<int>, results: Option<Rows>): (r: (Result<Option<Rows>, CursorError>, seq<HistoryEntry>))
    requires i <= |statements| && |times| == |statements|
    ensures history <= r.1 && |r.1| <= |history| + (|statements| - i)
    ensures i == |statements| ==> r.0 == Ok(results)
    ensures r.0.Ok? ==> |r.1| == |history| + (|statements| - i)
    ensures r.0.Ok? ==> forall k :: i <= k < |statements| ==>
      r.1[|history| + (k - i)] == HistoryEntry(statements[k], k < |statements| - 1 || r.0.value.Some?, times[k])
    decreases |statements| - i
  {
    if i == |statements| then (Ok(results), history)
    else
      var (res, h) := InnerExecute(statements[i], params, planner, history, times[i]);
      if res.Err? then (res, h)
      else if i < |statements| - 1 && res.value.None? then (Err(NotIterable), h)
      else RunFrom(statements, i + 1, params, planner, h, times, res.value)
  }

  /**
   * `_execute_statements` on already split statements: zero statements, or
   * a parameterised batch, are rejected before anything runs; otherwise the
   * statement loop runs from the first statement.
   */
  function ExecuteStatements(statements: seq<string>, params: Option<Params>, planner: Planner,
                             history: seq<HistoryEntry>, times: seq<int>): (r: (Result<Option<Rows>, CursorError>, seq<HistoryEntry>))
    requires |times| == |statements|
    ensures |statements| == 0 ==> r == (Err(MissingSqlStatement(NoStatementFound)), history)
    ensures |statements| > 1 && params.Some? ==> r == (Err(UnsupportedSyntax), history)
    ensures history <= r.1 && |r.1| <= |history| + |statements|
    ensures r.0.Ok? ==> 0 < |statements| && |r.1| == |history| + |statements|
    ensures r.0.Ok? ==> forall k :: 0 <= k < |statements| ==>
      r.1[|history| + k] == HistoryEntry(statements[k], k < |statements| - 1 || r.0.value.Some?, times[k])
  {
    if |statements| == 0 then (Err(MissingSqlStatement(NoStatementFound)), history)
    else if |statements| > 1 && params.Some? then (Err(UnsupportedSyntax), history)
    else RunFrom(statements, 0, params, planner, history, times, None)
  }

  /** A single statement's result is the result of `_inner_execute` on it. */
  lemma SingleStatement(statement: string, params: Option<Params>, planner: Planner,
                        history: seq<HistoryEntry>, now: int)
    ensures ExecuteStatements([statement], params, planner, history, [now]) ==
            InnerExecute(statement, params, planner, history, now)
  {
    var (res, h) := InnerExecute(statement, params, planner, history, now);
    if res.Ok? {
      assert RunFrom([statement], 1, params, planner, h, [now], res.value) == (Ok(res.value), h);
    }
  }

  // ---------------------------------------------------------------------
  // The cursor object

  /** The connection context's query history, shared by every cursor of the connection. */
  class History {
    var entries: seq<HistoryEntry>

    constructor (entries: seq<HistoryEntry>)
      ensures this.entries == entries
    {
      this.entries := entries;
    }
  }

  class Cursor {
    const qid: string
    var state: CursorState
    /** The connection context's history, held by reference: the cursor appends to it. */
    const history: History
    /** The result rows held after `execute`. */
    var rows: Rows

    /** A new cursor is INITIALIZED and holds no rows; `qid` stands for the generated UUID. */
    constructor (qid: string, history: History)
      ensures state == Initialized && rows == [] && this.qid == qid && this.history == history
    {
      this.qid := qid;
      state := Initialized;
      this.history := history;
      rows := [];
    }

    /** The `id` property. */
    function Id(): (r: string)
      ensures r == qid
    {
      qid
    }

    /** The loop of `_execute_statements`, run on this cursor's history. */
    method RunStatements(statements: seq<string>, params: Option<Params>, planner: Planner, times: seq<int>)
      returns (r: Result<Option<Rows>, CursorError>)
      requires |times| == |statements|
      modifies history
      ensures (r, history.entries) == ExecuteStatements(statements, params, planner, old(history.entries), times)
    {
      if |statements| == 0 {
        return Err(MissingSqlStatement(NoStatementFound));
      }
      if |statements| > 1 && params.Some? {
        return Err(UnsupportedSyntax);
      }
      var results: Option<Rows> := None;
      var index := 0;
      while index < |statements|
        invariant 0 <= index <= |statements|
        invariant RunFrom(statements, index, params, planner, history.entries, times, results)
               == ExecuteStatements(statements, params, planner, old(history.entries), times)
      {
        var (res, h) := InnerExecute(statements[index], params, planner, history.entries, times[index]);
        assert RunFrom(statements, index, params, planner, history.entries, times, results) ==
          if res.Err? then (res, h)
          else if index < |statements| - 1 && res.value.None? then (Err(NotIterable), h)
          else RunFrom(statements, index + 1, params, planner, h, times, res.value);
        history.entries := h;
        if res.Err? {
          return res;
        }
        if index < |statements| - 1 && res.value.None? {
          return Err(NotIterable);
        }
        results := res.value;
        index := index + 1;
      }
      return Ok(results);
    }

    /** `execute`: guarded by INITIALIZED, leads to EXECUTED when the statements run without error. */
    method Execute(statements: seq<string>, params: Option<Params>, planner: Planner, times: seq<int>)
      returns (r: Result<(), CursorError>)
      requires |times| == |statements|
      modifies this, history
      ensures old(state) != Initialized ==>
        r == Err(InvalidCursorState(Initialized)) && state == old(state) &&
        history.entries == old(history.entries) && rows == old(rows)
      ensures old(state) == Initialized ==>
        var (res, h) := ExecuteStatements(statements, params, planner, old(history.entries), times);
        history.entries == h &&
        (res.Err? ==> r == Err(res.error) && state == Initialized && rows == old(rows)) &&
        (res.Ok? ==> r == Ok(()) && state == Executed &&
                     rows == if res.value.Some? then res.value.value else old(rows))
      ensures var body := ExecuteStatements(statements, params, planner, old(history.entries), times).0;
        state == Guarded(old(state), Initialized, Executed, body).1
    {
      if state != Initialized {
        return Err(InvalidCursorState(Initialized));
      }
      var res := RunStatements(statements, params, planner, times);
      if res.Err? {
        return Err(res.error);
      }
      if res.value.Some? {
        rows := res.value.value;
      }
      state := Executed;
      return Ok(());
    }

    /**
     * `execute_to_arrow`: like `execute`, but returns the result rows, cut to
     * `limit` when one is given; no result at all cannot be concatenated.
     */
    method ExecuteToArrow(statements: seq<string>, params: Option<Params>, planner: Planner, times: seq<int>,
                          limit: Option<nat>)
      returns (r: Result<Rows, CursorError>)
      requires |times| == |statements|
      modifies this`state, history
      ensures old(state) != Initialized ==>
        r == Err(InvalidCursorState(Initialized)) && state == old(state) && history.entries == old(history.entries)
      ensures old(state) == Initialized ==>
        var (res, h) := ExecuteStatements(statements, params, planner, old(history.entries), times);
        history.entries == h &&
        (res.Err? ==> r == Err(res.error) && state == Initialized) &&
        (res.Ok? && res.value.None? ==> r == Err(NotIterable) && state == Initialized) &&
        (res.Ok? && res.value.Some? ==>
           state == Executed &&
           r == Ok(if limit.Some? then Take(res.value.value, limit.value) else res.value.value))
    {
      if state != Initialized {
        return Err(InvalidCursorState(Initialized));
      }
      var res := RunStatements(statements, params, planner, times);
      if res.Err? {
        return Err(res.error);
      }
      if res.value.None? {
        return Err(NotIterable);
      }
      var results := res.value.value;
      if limit.Some? {
        results := Take(results, limit.value);
      }
      state := Executed;
      return Ok(results);
    }

    /** `close`: guarded by EXECUTED, leads to CLOSED. */
    method Close() returns (r: Result<(), CursorError>)
      modifies this`state
      ensures old(state) == Executed ==> r == Ok(()) && state == Closed
      ensures old(state) != Executed ==> r == Err(InvalidCursorState(Executed)) && state == old(state)
      ensures (r, state) == Guarded(old(state), Executed, Closed, Ok(()))
    {
      if state != Executed {
        return Err(InvalidCursorState(Executed));
      }
      state := Closed;
      return Ok(());
    }
  }

  /**
   * Two cursors of one connection share its history: a statement run
   * through the first is seen through the second.
   */
  method SharedHistoryClient(statement: string, plans: seq<Option<Rows>>) returns (seenBySecond: seq<HistoryEntry>)
    ensures statement == "" ==> seenBySecond == []
    ensures statement != "" ==> seenBySecond == [HistoryEntry(statement, |plans| > 0 && plans[|plans| - 1].Some?, 0)]
  {
    var history := new History([]);
    var first := new Cursor("q1", history);
    var second := new Cursor("q2", history);
    var planner: Planner := (s, p) => plans;
    var _ := first.Execute([statement], None, planner, [0]);
    SingleStatement(statement, None, planner, [], 0);
    seenBySecond := second.history.entries;
  }
}
