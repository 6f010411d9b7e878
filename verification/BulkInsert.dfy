/**
  Multi-row inserts of sysbench's db_driver.c: rows gather in a buffer after the
  statement's head, full buffers are sent, and drivers that need it get a commit
  every so many rows.

  Strings have no embedded terminator and the length arguments are their lengths.
  What the database driver answers is a parameter.
 */
module BulkInsert {

  /** BULK_PACKET_SIZE */
  const PACKET: nat := 0x8_0000

  /** ROWS_BEFORE_COMMIT */
  const ROWS_BEFORE_COMMIT: nat := 1000

  // ----- statements

  function Comma(rows: seq<string>): string {
    if rows == [] then ""
    else if |rows| == 1 then rows[0]
    else Comma(rows[..|rows| - 1]) + "," + rows[|rows| - 1]
  }

  /** The statement that inserts `rows`. */
  function Statement(head: string, rows: seq<string>): string {
    head + Comma(rows)
  }

  lemma CommaSnoc(rows: seq<string>, row: string)
    ensures Comma(rows + [row]) == if rows == [] then row else Comma(rows) + "," + row
  {
    assert (rows + [row])[..|rows|] == rows;
  }

  lemma StatementSnoc(head: string, rows: seq<string>, row: string)
    ensures Statement(head, rows + [row]) == Statement(head, rows) + (if rows == [] then row else "," + row)
  {
    CommaSnoc(rows, row);
    if rows != [] {
      assert head + (Comma(rows) + "," + row) == head + Comma(rows) + ("," + row);
    }
  }

  lemma StatementHead(head: string, rows: seq<string>)
    ensures Statement(head, rows)[..|head|] == head == Statement(head, [])
  {
  }

  // ----- what reached the database

  datatype Command = Insert(text: string, rows: seq<string>) | Commit

  function RowsSent(log: seq<Command>): seq<string> {
    if log == [] then [] else
      var last := log[|log| - 1];
      RowsSent(log[..|log| - 1]) + (if last.Insert? then last.rows else [])
  }

  /** Rows sent since the last commit. */
  function Uncommitted(log: seq<Command>): nat {
    if log == [] then 0 else
      var last := log[|log| - 1];
      if last.Commit? then 0 else Uncommitted(log[..|log| - 1]) + |last.rows|
  }

  lemma LogSnoc(log: seq<Command>, c: Command)
    ensures RowsSent(log + [c]) == RowsSent(log) + (if c.Insert? then c.rows else [])
    ensures Uncommitted(log + [c]) == if c.Commit? then 0 else Uncommitted(log) + |c.rows|
  {
    assert (log + [c])[..|log|] == log;
  }

  /** Every statement is the head followed by its rows joined with commas, and fits a packet. */
  ghost predicate WellFormed(log: seq<Command>, head: string) {
    forall k :: 0 <= k < |log| && log[k].Insert? ==>
      log[k].rows != [] && log[k].text == Statement(head, log[k].rows) && |log[k].text| < PACKET
  }

  lemma NothingLogged(head: string)
    ensures RowsSent([]) == [] && Uncommitted([]) == 0 && WellFormed([], head)
  {
  }

  /** The log after a statement and, if due, a commit. */
  function Flushed(log: seq<Command>, head: string, rows: seq<string>, due: bool): seq<Command> {
    log + [Insert(Statement(head, rows), rows)] + if due then [Commit] else []
  }

  lemma FlushedIs(log: seq<Command>, head: string, rows: seq<string>)
    ensures var sent := log + [Insert(Statement(head, rows), rows)];
      Flushed(log, head, rows, false) == sent && Flushed(log, head, rows, true) == sent + [Commit]
  {
  }

  lemma CommitLogged(log: seq<Command>, head: string)
    requires WellFormed(log, head)
    ensures RowsSent(log + [Commit]) == RowsSent(log) && Uncommitted(log + [Commit]) == 0
    ensures WellFormed(log + [Commit], head)
  {
    LogSnoc(log, Commit);
  }

  lemma InsertLogged(log: seq<Command>, head: string, rows: seq<string>)
    requires WellFormed(log, head) && rows != [] && |Statement(head, rows)| < PACKET
    ensures var log' := log + [Insert(Statement(head, rows), rows)];
      && RowsSent(log') == RowsSent(log) + rows && Uncommitted(log') == Uncommitted(log) + |rows|
      && WellFormed(log', head)
  {
    LogSnoc(log, Insert(Statement(head, rows), rows));
  }

  // ----- the account of the rows

  /**
    What was sent and what is pending is what was given, and once more the rows of every statement
    whose commit failed; without such a statement they agree in order too.
   */
  ghost predicate Accounts(sent: seq<string>, pending: seq<string>, given: seq<string>, repeats: seq<string>) {
    && multiset(sent) + multiset(pending) == multiset(given) + multiset(repeats)
    && (repeats == [] ==> sent + pending == given)
  }

  /** Every row is sent or pending once, in order, exactly when no commit of a statement failed. */
  lemma OnceExactly(sent: seq<string>, pending: seq<string>, given: seq<string>, repeats: seq<string>)
    requires Accounts(sent, pending, given, repeats)
    ensures sent + pending == given <==> repeats == []
  {
    assert multiset(sent + pending) == multiset(sent) + multiset(pending);
    assert |multiset(given) + multiset(repeats)| == |given| + |repeats|;
  }

  lemma AccountClosed(sent: seq<string>, given: seq<string>, repeats: seq<string>)
    requires Accounts(sent, [], given, repeats)
    ensures multiset(sent) == multiset(given) + multiset(repeats) && (sent == given <==> repeats == [])
  {
    OnceExactly(sent, [], given, repeats);
    assert sent + [] == sent;
  }

  lemma AccountSent(sent: seq<string>, pending: seq<string>, given: seq<string>, repeats: seq<string>)
    requires Accounts(sent, pending, given, repeats)
    ensures Accounts(sent + pending, [], given, repeats)
  {
    assert multiset(sent + pending) == multiset(sent) + multiset(pending);
    assert sent + pending + [] == sent + pending;
  }

  /** A statement that went out and stays in the buffer will go out once more. */
  lemma AccountRepeated(sent: seq<string>, pending: seq<string>, given: seq<string>, repeats: seq<string>)
    requires Accounts(sent, [], given, repeats) && pending != []
    ensures Accounts(sent, pending, given, repeats + pending)
  {
    assert multiset(repeats + pending) == multiset(repeats) + multiset(pending);
    assert multiset(sent) == multiset(given) + multiset(repeats);
    MultisetShift(multiset(given), multiset(repeats), multiset(pending));
  }

  lemma MultisetShift(a: multiset<string>, b: multiset<string>, c: multiset<string>)
    ensures (a + b) + c == a + (b + c) && (a + c) + b == (a + b) + c
  {
  }

  lemma AccountGiven(sent: seq<string>, pending: seq<string>, given: seq<string>, repeats: seq<string>, row: string)
    requires Accounts(sent, pending, given, repeats)
    ensures Accounts(sent, pending + [row], given + [row], repeats)
  {
    assert multiset(pending + [row]) == multiset(pending) + multiset{row};
    assert multiset(given + [row]) == multiset(given) + multiset{row};
    MultisetShift(multiset(sent), multiset(pending), multiset{row});
    MultisetShift(multiset(given), multiset(repeats), multiset{row});
    assert sent + (pending + [row]) == sent + pending + [row];
  }

  // ----- the connection

  datatype ConnState = Ready | ResultSet | Invalid

  datatype Answer = Failed | NoRows | WithRows

  /** The driver: answers to the n-th query, whether the n-th result release succeeds, and its capabilities. */
  datatype Driver = Driver(query: nat -> Answer, free: nat -> bool, describes: bool, needsCommit: bool)

  /** No call of the driver fails. */
  ghost predicate NeverFails(d: Driver) {
    d.describes && (forall n :: d.query(n) != Failed) && (forall n :: d.free(n))
  }

  /** The connection's state and how often the driver was asked so far. */
  datatype Link = Link(state: ConnState, queries: nat, frees: nat)

  /** Whether a query succeeds, and the connection after it. */
  function AfterQuery(d: Driver, l: Link): (bool, Link) {
    if l.state == Invalid then (false, l)
    else if l.state == ResultSet && !d.free(l.frees) then (false, Link(Ready, l.queries, l.frees + 1))
    else
      var frees := if l.state == ResultSet then l.frees + 1 else l.frees;
      (d.query(l.queries) != Failed,
       Link(if d.query(l.queries) == WithRows then ResultSet else Ready, l.queries + 1, frees))
  }

  /** Whether a flush succeeds: the statement, then the commit if it is due. */
  function AfterFlush(d: Driver, l: Link, due: bool): (bool, Link) {
    var sent := AfterQuery(d, l);
    if sent.0 && due then AfterQuery(d, sent.1) else sent
  }

  /** The log after a flush that may fail: nothing, the statement, or the statement and its commit. */
  function FlushLog(d: Driver, l: Link, log: seq<Command>, head: string, rows: seq<string>, due: bool): seq<Command> {
    if !AfterQuery(d, l).0 then log else Flushed(log, head, rows, due && AfterFlush(d, l, due).0)
  }

  /** The rows of a flush whose statement went out and whose commit failed. */
  function FlushRepeats(d: Driver, l: Link, rows: seq<string>, due: bool): seq<string> {
    if AfterQuery(d, l).0 && !AfterFlush(d, l, due).0 then rows else []
  }

  /** A failed flush leaves rows to be sent again exactly when its statement went out. */
  lemma FailedFlush(d: Driver, l: Link, rows: seq<string>, due: bool)
    ensures rows != [] && !AfterFlush(d, l, due).0 ==> (FlushRepeats(d, l, rows, due) == [] <==> !AfterQuery(d, l).0)
  {
    hide AfterQuery;
  }

  /** Whether a bulk call goes on, and the connection then. */
  function AfterPrepare(d: Driver, l: Link): (bool, Link) {
    if l.state == ResultSet then (d.free(l.frees), Link(Ready, l.queries, l.frees + 1))
    else (l.state == Ready, l)
  }

  lemma WorkingDriver(d: Driver, l: Link, due: bool)
    requires NeverFails(d) && l.state != Invalid
    ensures d.describes && AfterPrepare(d, l).0 && AfterPrepare(d, l).1.state != Invalid
    ensures AfterQuery(d, l).0 && AfterQuery(d, l).1.state != Invalid
    ensures AfterFlush(d, l, due).0 && AfterFlush(d, l, due).1.state != Invalid
  {
  }

  class DbConn {
    const driver: Driver
    var state: ConnState
    var error: bool
    var queries: nat
    var frees: nat
    var bulkBuffer: array?<char>
    var bulkBuflen: nat
    var bulkPtr: nat
    var bulkValues: nat
    var bulkCnt: nat
    var bulkCommitCnt: nat
    var bulkCommitMax: nat

    /**
      The statement head, the rows accepted, the rows still in the buffer, the commands that succeeded,
      and the rows that a failed commit left in the buffer after they were sent.
     */
    ghost var head: string
    ghost var given: seq<string>
    ghost var pending: seq<string>
    ghost var log: seq<Command>
    ghost var repeats: seq<string>

    /** The buffer starts with the statement for the pending rows. */
    ghost predicate Framed()
      reads this, bulkBuffer
    {
      && bulkBuffer != null && bulkBuffer.Length == bulkBuflen == PACKET
      && bulkValues == |head| && bulkPtr < bulkBuflen
      && bulkBuffer[..bulkPtr] == Statement(head, pending)
      && WellFormed(log, head)
      && bulkCommitMax == (if driver.needsCommit then ROWS_BEFORE_COMMIT else 0)
      && (bulkCommitMax != 0 ==> bulkCommitCnt == Uncommitted(log))
    }

    /** The buffer holds the pending rows, and they are accounted for. */
    ghost predicate Buffered()
      reads this, bulkBuffer
    {
      Framed() && bulkCnt == |pending| && Accounts(RowsSent(log), pending, given, repeats)
    }

    /** The pending rows were just sent and are still in the buffer. */
    ghost predicate Sent()
      reads this, bulkBuffer
    {
      Framed() && bulkCnt == |pending| && Accounts(RowsSent(log), [], given, repeats)
    }

    /** Every row was sent once, in order, or is still pending. */
    ghost predicate Once()
      reads this
    {
      RowsSent(log) + pending == given
    }

    /** Between calls there is something pending unless nothing was ever given. */
    ghost predicate Valid()
      reads this, bulkBuffer
    {
      Buffered() && (pending == [] ==> log == [])
    }

    function TheLink(): Link
      reads this
    {
      Link(state, queries, frees)
    }

    /** No bulk insert is open. */
    predicate Closed()
      reads this
    {
      bulkBuffer == null && bulkCnt == 0
    }

    constructor (d: Driver, s: ConnState)
      ensures driver == d && state == s && bulkBuffer == null && bulkCnt == 0
      ensures log == [] && TheLink() == Link(s, 0, 0)
    {
      driver := d;
      state := s;
      error := false;
      queries, frees := 0, 0;
      bulkBuffer := null;
      bulkBuflen, bulkPtr, bulkValues, bulkCnt, bulkCommitCnt, bulkCommitMax := 0, 0, 0, 0, 0, 0;
      head, given, pending, log, repeats := "", [], [], [], [];
    }

    /** strcpy into the bulk buffer, terminator included. */
    method Strcpy(at: nat, s: string)
      requires bulkBuffer != null && at + |s| + 1 <= bulkBuffer.Length
      modifies bulkBuffer
      ensures bulkBuffer[..at] == old(bulkBuffer[..at])
      ensures bulkBuffer[at..at + |s|] == s && bulkBuffer[at + |s|] == '\0'
    {
      for k := 0 to |s|
        invariant bulkBuffer[..at] == old(bulkBuffer[..at]) && bulkBuffer[at..at + k] == s[..k]
      {
        bulkBuffer[at + k] := s[k];
      }
      bulkBuffer[at + |s|] := '\0';
    }

    /** db_free_results_int */
    method FreeResults() returns (ok: bool)
      modifies `state, `frees
      ensures state == Ready && frees == old(frees) + 1 && ok == driver.free(old(frees))
    {
      ok := driver.free(frees);
      frees := frees + 1;
      state := Ready;
    }

    /** The test of the connection at the head of the bulk calls: whether to go on. */
    method Prepare() returns (go: bool)
      modifies `state, `frees
      ensures go == AfterPrepare(driver, old(TheLink())).0 && TheLink() == AfterPrepare(driver, old(TheLink())).1
    {
      if state == Invalid {
        return false;
      }
      if state == ResultSet {
        go := FreeResults();
        return;
      }
      return true;
    }

    /** db_query of a command: success means no error was recorded. */
    method Query(ghost command: Command) returns (hasRows: bool)
      modifies `state, `error, `frees, `queries, `log
      ensures log == if error then old(log) else old(log) + [command]
      ensures hasRows ==> !error
      ensures !error == AfterQuery(driver, old(TheLink())).0 && TheLink() == AfterQuery(driver, old(TheLink())).1
    {
      if state == Invalid {
        error := true;
        return false;
      }
      if state == ResultSet {
        var ok := FreeResults();
        if !ok {
          error := true;
          return false;
        }
      }
      var answer := driver.query(queries);
      queries := queries + 1;
      error := answer == Failed;
      hasRows := answer == WithRows;
      if !error {
        state := if hasRows then ResultSet else Ready;
        log := log + [command];
      }
    }

    /** A query and the test that follows it: no result set and an error on record. */
    method Succeeds(ghost command: Command) returns (ok: bool)
      modifies `state, `error, `frees, `queries, `log
      ensures log == if ok then old(log) + [command] else old(log)
      ensures ok == AfterQuery(driver, old(TheLink())).0 && TheLink() == AfterQuery(driver, old(TheLink())).1
    {
      var hasRows := Query(command);
      ok := hasRows || !error;
    }

    /**
      db_bulk_insert_init; `obtained` is whether the allocation of the buffer succeeds, and `started` says
      that the buffer is set up.
     */
    method Init(query: string, obtained: bool) returns (rc: int, ghost started: bool)
      modifies this
      ensures started ==> rc == 0 && Valid() && fresh(bulkBuffer) && head == query && given == [] && log == [] && repeats == []
      ensures started ==> pending == [] && bulkCnt == 0
      ensures !started ==> log == old(log) && given == old(given) && repeats == old(repeats) && bulkCnt == old(bulkCnt)
      ensures !started ==> bulkBuffer == old(bulkBuffer) || (!obtained && bulkBuffer == null && rc == 1)
      ensures TheLink() == AfterPrepare(driver, old(TheLink())).1
      ensures started <==> AfterPrepare(driver, old(TheLink())).0 && driver.describes && |query| + 1 <= PACKET && obtained
      ensures rc == if AfterPrepare(driver, old(TheLink())).0 && !started then 1 else 0
    {
      var go := Prepare();
      if !go {
        return 0, false;
      }
      if !driver.describes {
        return 1, false;
      }
      if |query| + 1 > PACKET {
        return 1, false;
      }
      if !obtained {
        bulkBuflen := PACKET;
        bulkBuffer := null;
        return 1, false;
      }
      StartBuffer(query);
      return 0, true;
    }

    /** The assignments at the end of db_bulk_insert_init, up to the copy of the head. */
    method ResetBuffer(query: string)
      modifies `bulkBuffer, `bulkBuflen, `bulkPtr, `bulkValues, `bulkCnt, `bulkCommitCnt, `bulkCommitMax
      modifies `head, `given, `pending, `log, `repeats
      ensures bulkBuffer != null && fresh(bulkBuffer) && bulkBuffer.Length == bulkBuflen == PACKET == 524288
      ensures bulkPtr == |query| && bulkValues == |query| && bulkCnt == 0 && bulkCommitCnt == 0
      ensures bulkCommitMax == if driver.needsCommit then 1000 else 0
      ensures head == query && given == [] && pending == [] && log == [] && repeats == []
    {
      var buffer := new char[PACKET];
      bulkBuflen := PACKET;
      bulkBuffer := buffer;
      bulkCommitMax := if driver.needsCommit then ROWS_BEFORE_COMMIT else 0;
      bulkCommitCnt := 0;
      bulkPtr := |query|;
      bulkValues := |query|;
      bulkCnt := 0;
      head, given, pending, log, repeats := query, [], [], [], [];
    }

    /** The buffer of a fresh connection holds the head alone. */
    method StartBuffer(query: string)
      requires |query| + 1 <= PACKET
      modifies this
      ensures Valid() && fresh(bulkBuffer) && head == query && given == [] && log == [] && repeats == []
      ensures pending == [] && bulkCnt == 0 && TheLink() == old(TheLink())
    {
      StatementHead(query, []);
      NothingLogged(query);
      hide WellFormed, Statement, RowsSent, Uncommitted;
      ResetBuffer(query);
      Strcpy(0, query);
      assert bulkBuffer[..bulkPtr] == bulkBuffer[0..0 + |query|];
    }

    /** The insert itself and the count of rows waiting for a commit. */
    method SendRows() returns (ok: bool)
      requires Buffered() && pending != []
      modifies `state, `error, `frees, `queries, `log, `bulkCommitCnt
      ensures ok ==> Sent() && log == old(log) + [Insert(Statement(head, pending), pending)]
      ensures !ok ==> Buffered() && log == old(log)
      ensures ok == AfterQuery(driver, old(TheLink())).0 && TheLink() == AfterQuery(driver, old(TheLink())).1
    {
      hide RowsSent, Uncommitted, WellFormed, Statement, AfterQuery, Accounts;
      ghost var command := Insert(bulkBuffer[..bulkPtr], pending);
      InsertLogged(log, head, pending);
      AccountSent(RowsSent(log), pending, given, repeats);
      ok := Succeeds(command);
      if ok && bulkCommitMax != 0 {
        bulkCommitCnt := bulkCommitCnt + bulkCnt;
      }
    }

    /** Where commits are needed, one follows the last statement and every statement that brings enough rows. */
    predicate CommitDue(log: seq<Command>, rows: seq<string>, isLast: bool)
    {
      driver.needsCommit && (isLast || Uncommitted(log) + |rows| >= ROWS_BEFORE_COMMIT)
    }

    /** The commit itself. */
    method SendCommit() returns (ok: bool)
      requires Sent()
      modifies `state, `error, `frees, `queries, `log, `bulkCommitCnt
      ensures Sent() && log == if ok then old(log) + [Commit] else old(log)
      ensures ok ==> Uncommitted(log) == 0
      ensures ok == AfterQuery(driver, old(TheLink())).0 && TheLink() == AfterQuery(driver, old(TheLink())).1
    {
      hide RowsSent, Uncommitted, WellFormed, Statement, AfterQuery, Accounts;
      CommitLogged(log, head);
      ok := Succeeds(Commit);
      if ok {
        bulkCommitCnt := 0;
      }
      assert Sent();
    }

    /** The commit, when it is due. */
    method CommitIfDue(isLast: bool) returns (ok: bool)
      requires Sent()
      modifies `state, `error, `frees, `queries, `log, `bulkCommitCnt
      ensures Sent()
      ensures ok && bulkCommitMax != 0 ==> Uncommitted(log) < ROWS_BEFORE_COMMIT && (isLast ==> Uncommitted(log) == 0)
      ensures log ==
        if ok && bulkCommitMax != 0 && (isLast || old(bulkCommitCnt) >= bulkCommitMax) then old(log) + [Commit] else old(log)
      ensures if bulkCommitMax != 0 && (isLast || old(bulkCommitCnt) >= bulkCommitMax)
              then ok == AfterQuery(driver, old(TheLink())).0 && TheLink() == AfterQuery(driver, old(TheLink())).1
              else ok && TheLink() == old(TheLink())
    {
      hide RowsSent, Uncommitted, WellFormed, Statement, AfterQuery, Accounts;
      ok := true;
      if bulkCommitMax != 0 {
        if isLast || bulkCommitCnt >= bulkCommitMax {
          ok := SendCommit();
        }
      }
    }

    /** The statement, and the commit if it is due; when only the commit fails the rows are marked as repeats. */
    method SendAndCommit(isLast: bool) returns (ok: bool)
      requires Buffered() && pending != []
      modifies `state, `error, `frees, `queries, `log, `repeats, `bulkCommitCnt
      ensures if ok then Sent() else Buffered()
      ensures ok && bulkCommitMax != 0 ==> Uncommitted(log) < ROWS_BEFORE_COMMIT && (isLast ==> Uncommitted(log) == 0)
      ensures log == FlushLog(driver, old(TheLink()), old(log), head, pending, CommitDue(old(log), pending, isLast))
      ensures repeats ==
        old(repeats) + FlushRepeats(driver, old(TheLink()), pending, CommitDue(old(log), pending, isLast))
      ensures var flush := AfterFlush(driver, old(TheLink()), CommitDue(old(log), pending, isLast));
        ok == flush.0 && TheLink() == flush.1
    {
      hide RowsSent, Uncommitted, WellFormed, Statement, AfterQuery, Flushed, Accounts;
      InsertLogged(log, head, pending);
      FlushedIs(log, head, pending);
      ok := SendRows();
      if ok {
        ok := CommitIfDue(isLast);
        if !ok {
          AccountRepeated(RowsSent(log), pending, given, repeats);
          repeats := repeats + pending;
          assert Buffered();
        }
      }
    }

    /** The buffer cut back to the head. */
    method Rewind()
      requires Sent()
      modifies `bulkPtr, `bulkCnt, `pending
      ensures Buffered() && pending == []
    {
      StatementHead(head, pending);
      assert bulkBuffer[..bulkValues] == bulkBuffer[..bulkPtr][..bulkValues];
      hide RowsSent, Uncommitted, WellFormed, Statement, Accounts;
      bulkPtr := bulkValues;
      bulkCnt := 0;
      pending := [];
    }

    /** db_bulk_do_insert: send the pending rows, and commit when enough rows are waiting or this is the last. */
    method DoInsert(isLast: bool) returns (rc: int)
      requires Closed() || Buffered()
      modifies this
      ensures bulkBuffer == old(bulkBuffer) && head == old(head) && given == old(given)
      ensures rc == 0 || rc == 1
      ensures old(bulkCnt) == 0 ==> rc == 0 && log == old(log) && repeats == old(repeats) && TheLink() == old(TheLink())
      ensures old(Closed()) ==> Closed()
      ensures !old(Closed()) ==> Buffered() && pending == if rc == 0 then [] else old(pending)
      ensures rc == 0 && old(bulkCnt) > 0 && bulkCommitMax != 0 ==>
        Uncommitted(log) < ROWS_BEFORE_COMMIT && (isLast ==> Uncommitted(log) == 0)
      ensures old(bulkCnt) > 0 ==>
        var flush := AfterFlush(driver, old(TheLink()), CommitDue(old(log), old(pending), isLast));
        (rc == 0 <==> flush.0) && TheLink() == flush.1
      ensures old(bulkCnt) > 0 ==>
        var due := CommitDue(old(log), old(pending), isLast);
        && log == FlushLog(driver, old(TheLink()), old(log), head, old(pending), due)
        && repeats == old(repeats) + FlushRepeats(driver, old(TheLink()), old(pending), due)
      ensures rc == 1 ==> bulkPtr == old(bulkPtr) && bulkCnt == old(bulkCnt)
    {
      hide RowsSent, Uncommitted, WellFormed, Statement, AfterFlush, AfterQuery, Flushed, Accounts, FlushLog, FlushRepeats;
      if bulkCnt == 0 {
        return 0;
      }
      var ok := SendAndCommit(isLast);
      if !ok {
        return 1;
      }
      Rewind();
      return 0;
    }

    /** The room test of db_bulk_insert_next. */
    predicate Overflows(query: string)
      reads this
    {
      bulkPtr + |query| + 1 + (if bulkCnt > 0 then 1 else 0) > bulkBuflen
    }

    /** The connection is usable, and the row does not fit behind the rows of the buffer. */
    ghost predicate MustFlush(query: string)
      reads this
    {
      AfterPrepare(driver, TheLink()).0 && bulkBuffer != null && bulkCnt > 0 && Overflows(query)
    }

    /** The row does not fit, and the flush that makes room succeeds. */
    ghost predicate Flushes(query: string)
      reads this
    {
      && AfterPrepare(driver, TheLink()).0 && bulkCnt > 0 && Overflows(query)
      && AfterFlush(driver, AfterPrepare(driver, TheLink()).1, CommitDue(log, pending, false)).0
    }

    /**
      db_bulk_insert_next.  `end` is where the copy of the row ends, terminator included, or zero if
      nothing is copied.  After a flush there is no second room test, so the copy may end behind the
      buffer; the model then stops before it.
     */
    method Next(query: string) returns (rc: int, end: nat)
      requires bulkBuffer != null ==> Valid()
      modifies this, bulkBuffer
      ensures bulkBuffer == old(bulkBuffer) && head == old(head)
      ensures !AfterPrepare(driver, old(TheLink())).0 ==> rc == 0 && end == 0 && given == old(given)
      ensures AfterPrepare(driver, old(TheLink())).0 && bulkBuffer == null ==> rc == 1 && end == 0
      ensures if !old(MustFlush(query)) then log == old(log) && repeats == old(repeats) else
        var link, due := AfterPrepare(driver, old(TheLink())).1, CommitDue(old(log), old(pending), false);
        && log == FlushLog(driver, link, old(log), head, old(pending), due)
        && repeats == old(repeats) + FlushRepeats(driver, link, old(pending), due)
      ensures TheLink() == if !old(MustFlush(query)) then AfterPrepare(driver, old(TheLink())).1 else
        AfterFlush(driver, AfterPrepare(driver, old(TheLink())).1, CommitDue(old(log), old(pending), false)).1
      ensures bulkBuffer != null ==> (end > bulkBuflen <==> old(Flushes(query)) && |head| + |query| + 1 > bulkBuflen)
      ensures end > bulkBuflen ==> Buffered() && pending == [] && given == old(given)
      ensures end <= bulkBuflen && bulkBuffer != null ==> Valid()
      ensures rc != 0 ==> rc == 1 && given == old(given)
      ensures rc != 0 && old(MustFlush(query)) ==>
        (Once() <==> old(Once()) && !AfterQuery(driver, AfterPrepare(driver, old(TheLink())).1).0)
      ensures bulkBuffer != null && AfterPrepare(driver, old(TheLink())).0 ==>
        && (rc == 0 <==> !old(Overflows(query)) || old(Flushes(query)))
        && (rc == 0 && end <= bulkBuflen ==> given == old(given) + [query] && end == bulkPtr + 1)
      ensures bulkBuffer != null && AfterPrepare(driver, old(TheLink())).0 && end <= bulkBuflen ==>
        pending == if rc != 0 then old(pending) else (if old(MustFlush(query)) then [] else old(pending)) + [query]
      ensures bulkBuffer != null && old(state) != Invalid && NeverFails(driver) ==> state != Invalid
    {
      hide AfterFlush, AfterPrepare, NeverFails, CommitDue, RowsSent, Uncommitted, WellFormed, Statement;
      hide Accounts, FlushLog, FlushRepeats;
      ghost var due := CommitDue(log, pending, false);
      if state != Invalid && NeverFails(driver) {
        WorkingDriver(driver, TheLink(), due);
        WorkingDriver(driver, AfterPrepare(driver, TheLink()).1, due);
      }
      var go := Prepare();
      if !go {
        return 0, 0;
      }
      if bulkBuffer == null {
        return 1, 0;
      }
      OnceExactly(RowsSent(log), pending, given, repeats);
      FailedFlush(driver, TheLink(), pending, due);
      rc := MakeRoom(query);
      if rc != 0 {
        OnceExactly(RowsSent(log), pending, given, repeats);
        return 1, 0;
      }
      end := CopyInside(query);
      return 0, end;
    }

    /** The copy, unless it would end behind the buffer. */
    method CopyInside(query: string) returns (end: nat)
      requires Buffered()
      modifies `bulkPtr, `bulkCnt, `pending, `given, bulkBuffer
      ensures end == old(bulkPtr) + |query| + 1 + if old(bulkCnt) > 0 then 1 else 0
      ensures end <= bulkBuflen ==> Valid() && given == old(given) + [query] && end == bulkPtr + 1 && bulkCnt > 0
      ensures end <= bulkBuflen ==> pending == old(pending) + [query]
      ensures end > bulkBuflen ==> Buffered() && given == old(given) && pending == old(pending)
    {
      hide RowsSent, Uncommitted, WellFormed, Statement, Accounts;
      end := bulkPtr + |query| + 1 + (if bulkCnt > 0 then 1 else 0);
      if end <= bulkBuflen {
        AddRow(query);
      }
    }

    /** The room test, and the flush of a buffer that has rows. */
    method MakeRoom(query: string) returns (rc: int)
      requires bulkBuffer != null && Valid()
      modifies this
      ensures bulkBuffer == old(bulkBuffer) && head == old(head) && given == old(given)
      ensures !old(Overflows(query)) ==>
        && rc == 0 && Valid() && pending == old(pending) && TheLink() == old(TheLink())
        && bulkPtr == old(bulkPtr) && bulkCnt == old(bulkCnt)
      ensures old(Overflows(query)) && old(bulkCnt) == 0 ==> rc == 1 && TheLink() == old(TheLink())
      ensures !(old(Overflows(query)) && old(bulkCnt) > 0) ==> log == old(log) && repeats == old(repeats)
      ensures old(Overflows(query)) && old(bulkCnt) > 0 ==>
        var flush := AfterFlush(driver, old(TheLink()), CommitDue(old(log), old(pending), false));
        && (rc == 0 <==> flush.0) && TheLink() == flush.1
        && (rc == 0 ==> Buffered() && pending == [] && bulkPtr == |head|)
      ensures old(Overflows(query)) && old(bulkCnt) > 0 ==>
        var due := CommitDue(old(log), old(pending), false);
        && log == FlushLog(driver, old(TheLink()), old(log), head, old(pending), due)
        && repeats == old(repeats) + FlushRepeats(driver, old(TheLink()), old(pending), due)
      ensures rc != 0 ==> Valid() && pending == old(pending)
    {
      hide RowsSent, Uncommitted, WellFormed, Statement, AfterFlush, Accounts, FlushLog, FlushRepeats;
      rc := 0;
      if bulkPtr + |query| + 1 + (if bulkCnt > 0 then 1 else 0) > bulkBuflen {
        if bulkCnt == 0 {
          return 1;
        }
        rc := DoInsert(false);
        if rc != 0 {
          return 1;
        }
        EmptyStatement();
      }
    }

    lemma EmptyStatement()
      requires Buffered() && pending == []
      ensures bulkPtr == |head|
    {
    }

    /** The copy of a row behind the rows already there. */
    method CopyRow(query: string)
      requires bulkBuffer != null
      requires bulkPtr + |query| + 1 + (if bulkCnt > 0 then 1 else 0) <= bulkBuffer.Length
      modifies bulkBuffer
      ensures var text := if bulkCnt > 0 then "," + query else query;
        bulkBuffer[..bulkPtr + |text|] == old(bulkBuffer[..bulkPtr]) + text && bulkBuffer[bulkPtr + |text|] == '\0'
    {
      if bulkCnt > 0 {
        bulkBuffer[bulkPtr] := ',';
        ghost var upto := bulkBuffer[..bulkPtr + 1];
        Strcpy(bulkPtr + 1, query);
        assert bulkBuffer[..bulkPtr + 1] == upto;
        assert bulkBuffer[bulkPtr] == upto[bulkPtr];
        assert bulkBuffer[..bulkPtr] == upto[..bulkPtr];
      } else {
        Strcpy(bulkPtr, query);
      }
    }

    /** The tail of db_bulk_insert_next. */
    method AddRow(query: string)
      requires Buffered()
      requires bulkPtr + |query| + 1 + (if bulkCnt > 0 then 1 else 0) <= PACKET
      modifies `bulkPtr, `bulkCnt, `pending, `given, bulkBuffer
      ensures Buffered() && pending == old(pending) + [query] && given == old(given) + [query]
      ensures bulkPtr == old(bulkPtr) + |query| + (if old(bulkCnt) > 0 then 1 else 0)
      ensures bulkBuffer[bulkPtr] == '\0'
    {
      hide RowsSent, Uncommitted, WellFormed, Statement, Accounts;
      StatementSnoc(head, pending, query);
      AccountGiven(RowsSent(log), pending, given, repeats, query);
      CopyRow(query);
      bulkPtr := bulkPtr + |query| + (if bulkCnt > 0 then 1 else 0);
      bulkCnt := bulkCnt + 1;
      pending := pending + [query];
      given := given + [query];
    }

    /**
      db_bulk_insert_done: after success nothing is unsent or, where commits are needed, uncommitted, and
      every row was sent once, in order, exactly when no commit failed on the way.  After a failure the
      buffer stays open for another try.
     */
    method Done() returns (rc: int)
      requires Closed() || Valid()
      modifies this
      ensures rc == 0 ==> Closed()
      ensures rc == 0 || rc == 1
      ensures rc != 0 ==> Valid() && pending == old(pending)
      ensures rc != 0 ==> (Once() <==> old(Once()) && !AfterQuery(driver, old(TheLink())).0)
      ensures old(Closed()) ==> rc == 0
      ensures old(bulkCnt) == 0 ==> log == old(log) && repeats == old(repeats)
      ensures old(bulkCnt) > 0 ==>
        var due := CommitDue(old(log), old(pending), true);
        && (rc == 0 <==> AfterFlush(driver, old(TheLink()), due).0)
        && TheLink() == AfterFlush(driver, old(TheLink()), due).1
        && log == FlushLog(driver, old(TheLink()), old(log), head, old(pending), due)
        && repeats == old(repeats) + FlushRepeats(driver, old(TheLink()), old(pending), due)
      ensures rc == 0 && !old(Closed()) ==>
        WellFormed(log, head) && multiset(RowsSent(log)) == multiset(given) + multiset(repeats)
      ensures rc == 0 && !old(Closed()) ==> (RowsSent(log) == given <==> repeats == [])
      ensures rc == 0 && !old(Closed()) && driver.needsCommit ==> Uncommitted(log) == 0
      ensures head == old(head) && given == old(given)
      ensures old(state) != Invalid && NeverFails(driver) ==> rc == 0
    {
      ghost var due := CommitDue(log, pending, true);
      if state != Invalid && NeverFails(driver) {
        WorkingDriver(driver, TheLink(), due);
      }
      NothingLogged(head);
      hide RowsSent, Uncommitted, WellFormed, Statement, AfterFlush, AfterQuery, NeverFails, FlushLog, FlushRepeats;
      hide Accounts;
      if bulkBuffer != null {
        OnceExactly(RowsSent(log), pending, given, repeats);
      }
      FailedFlush(driver, TheLink(), pending, due);
      rc := DoInsert(true);
      if rc != 0 {
        OnceExactly(RowsSent(log), pending, given, repeats);
        return 1;
      }
      if bulkBuffer != null {
        AccountClosed(RowsSent(log), given, repeats);
        bulkBuffer := null;
      }
      return 0;
    }
  }

  /** A row fits alone behind the head. */
  predicate Fits(query: string, row: string) { |query| + |row| + 1 <= PACKET }

  /** How a whole bulk insert ends: all rows sent, the head or first row refused, or a copy behind the buffer's end. */
  datatype Outcome = Complete | Refused | Overrun

  /**
    A whole bulk insert on a working connection: every row is sent exactly once, in order, and
    committed, if and only if every row fits alone behind the head.  A first row that does not
    is refused; a later one is copied behind the end of the buffer.
   */
  method InsertAll(con: DbConn, query: string, rows: seq<string>) returns (outcome: Outcome)
    requires con.state != Invalid && NeverFails(con.driver)
    modifies con
    ensures outcome == Complete <==> |query| + 1 <= PACKET && forall k :: 0 <= k < |rows| ==> Fits(query, rows[k])
    ensures outcome == Overrun <==>
      && |query| + 1 <= PACKET && rows != [] && Fits(query, rows[0])
      && exists k :: 0 < k < |rows| && !Fits(query, rows[k])
    ensures outcome == Complete ==>
      && con.head == query && con.given == rows && RowsSent(con.log) == rows && WellFormed(con.log, query)
      && (con.driver.needsCommit ==> Uncommitted(con.log) == 0)
  {
    hide WellFormed, RowsSent, Uncommitted, AfterFlush, AfterQuery, AfterPrepare, Accounts, FlushLog, FlushRepeats;
    hide NeverFails;
    var rc, end: nat;
    ghost var started;
    WorkingDriver(con.driver, con.TheLink(), false);
    rc, started := con.Init(query, true);
    if rc != 0 {
      return Refused;
    }
    for k := 0 to |rows|
      invariant con.bulkBuffer != null && fresh(con.bulkBuffer) && con.Valid() && |query| + 1 <= PACKET
      invariant con.state != Invalid && con.head == query && con.given == rows[..k] && con.repeats == []
      invariant forall j :: 0 <= j < k ==> Fits(query, rows[j])
      invariant con.bulkCnt > 0 <==> k > 0
    {
      WorkingFlush(con);
      rc, end := con.Next(rows[k]);
      if rc != 0 {
        return Refused;
      }
      if end > PACKET {
        return Overrun;
      }
      assert rows[..k + 1] == rows[..k] + [rows[k]];
    }
    assert rows[..|rows|] == rows;
    WorkingDone(con);
    rc := con.Done();
    return Complete;
  }

  lemma WorkingFlush(con: DbConn)
    requires con.state != Invalid && NeverFails(con.driver)
    ensures AfterPrepare(con.driver, con.TheLink()).0
    ensures var link, due := AfterPrepare(con.driver, con.TheLink()).1, con.CommitDue(con.log, con.pending, false);
      AfterFlush(con.driver, link, due).0 && FlushRepeats(con.driver, link, con.pending, due) == []
  {
    WorkingDriver(con.driver, con.TheLink(), false);
    WorkingDriver(con.driver, AfterPrepare(con.driver, con.TheLink()).1, con.CommitDue(con.log, con.pending, false));
  }

  lemma WorkingDone(con: DbConn)
    requires con.state != Invalid && NeverFails(con.driver)
    ensures FlushRepeats(con.driver, con.TheLink(), con.pending, con.CommitDue(con.log, con.pending, true)) == []
  {
    WorkingDriver(con.driver, con.TheLink(), con.CommitDue(con.log, con.pending, true));
  }

  /** A row as long as the packet, after a short one, is copied behind the end of the buffer. */
  method OverrunCase() returns (outcome: Outcome)
    ensures outcome == Overrun
  {
    var con := new DbConn(Driver(_ => NoRows, _ => true, true, false), Ready);
    var long: string := seq(PACKET, _ => 'z');
    assert Fits("q", "a") && !Fits("q", long);
    assert !Fits("q", ["a", long][1]);
    outcome := InsertAll(con, "q", ["a", long]);
  }

  /** A driver whose second query, a commit in the case below, fails. */
  function Flaky(): Driver { Driver(FailsOnce, Always, true, true) }

  function FailsOnce(n: nat): Answer { if n == 1 then Failed else NoRows }

  predicate Always(n: nat) { true }

  /** A fresh connection with one row in its buffer. */
  method OneRow() returns (con: DbConn)
    ensures fresh(con) && con.driver == Flaky() && con.bulkBuffer != null && con.Valid()
    ensures fresh(con.bulkBuffer) && con.TheLink() == Link(Ready, 0, 0) && con.log == [] && con.repeats == []
    ensures con.head == "q" && con.given == ["a"] && con.pending == ["a"] && con.bulkCnt == 1
  {
    hide RowsSent, WellFormed, Uncommitted, Accounts, FlushLog, FlushRepeats, AfterFlush, AfterQuery;
    con := new DbConn(Flaky(), Ready);
    var rc, end: nat;
    ghost var started;
    rc, started := con.Init("q", true);
    rc, end := con.Next("a");
  }

  /** Both attempts to finish: the statement goes out each time, the first commit fails. */
  lemma TwoFinishes(d: Driver, s: Command)
    requires d == Flaky() && s == Insert(Statement("q", ["a"]), ["a"])
    ensures !AfterFlush(d, Link(Ready, 0, 0), true).0 && AfterFlush(d, Link(Ready, 0, 0), true).1 == Link(Ready, 2, 0)
    ensures FlushLog(d, Link(Ready, 0, 0), [], "q", ["a"], true) == [s]
    ensures AfterFlush(d, Link(Ready, 2, 0), true).0
    ensures FlushLog(d, Link(Ready, 2, 0), [s], "q", ["a"], true) == [s, s, Commit]
  {
    hide Statement;
  }

  lemma TwiceLogged(s: Command)
    requires s.Insert? && s.rows == ["a"]
    ensures RowsSent([s, s, Commit]) == ["a", "a"]
  {
    LogSnoc([], s);
    LogSnoc([s], s);
    LogSnoc([s, s], Commit);
    assert [s] == [] + [s] && [s, s] == [s] + [s] && [s, s, Commit] == [s, s] + [Commit];
    hide RowsSent;
    NothingLogged("");
  }

  /** The only row was sent, its commit failed, and the insert is finished again: the row is in the database twice. */
  method ResendCase() returns (con: DbConn, first: int, second: int)
    ensures first == 1 && second == 0
    ensures con.given == ["a"] && RowsSent(con.log) == ["a", "a"]
  {
    hide RowsSent, WellFormed, Uncommitted, Accounts, FlushLog, FlushRepeats, AfterFlush, AfterQuery, Statement;
    con := OneRow();
    ghost var s := Insert(Statement("q", ["a"]), ["a"]);
    TwoFinishes(con.driver, s);
    TwiceLogged(s);
    first := con.Done();
    assert con.TheLink() == Link(Ready, 2, 0) && con.log == [s];
    second := con.Done();
    assert con.log == [s, s, Commit];
  }
}
