/**
  The import procedure: the checks that abort it, the encoding step, the read,
  the destructive reload of the target table inside one transaction, and the
  final report.

  The file system and the database form one collaborator, Host.  Its answers
  are fixed by a Setting (which encoding a file is detected as, how a write
  ends, what insert_data answers to the n-th row).  Every call it serves that
  changes something is an Event, and the state it leaves is the replay of those
  events.  ImportRun is the specification of one run as the events it causes
  and the outcome it reports; BulkCore.ImportCsv is proved to carry it out.
 */
module Import {
  import opened Patterns
  import opened Coercion
  import opened Schema
  import opened Records

  /** The ways a run stops early; each ends the process with a message. */
  datatype Failure =
    | MissingFile
    | UnknownTable
    | WriteFailed
    | NoValidData
    | DatabaseError(message: string)

  datatype Outcome =
    | Completed(inserted: nat, total: nat, table: string)
    | Failed(failure: Failure)

  /** What insert_data does with one row: stores it (truthy), refuses it (falsy) or throws a PDOException. */
  datatype Reply = Accepted | Refused | Threw(message: string)

  datatype Event =
    | Converted(source: string, from: string, path: string, written: Option<nat>)
    | Discarded(path: string)
    | Truncated(table: string)
    | Began
    | Inserted(table: string, row: RowData, reply: Reply)
    | Committed
    | RolledBack

  /** The fixed behaviour of the environment. */
  datatype Setting = Setting(
    tables: set<string>,                  // tables that exist in the database
    detect: string -> Option<string>,     // the detected encoding of a file; None when detection fails
    freshPath: string,                    // the name chosen for a converted copy
    writeResult: Option<nat>,             // bytes the write of the copy reports; None when it fails
    parse: string -> seq<seq<string>>,    // the CSV lines of a file
    replies: nat -> Reply,                // the answer to the n-th insert
    decode: string -> Option<Json>)       // json_decode in associative mode

  /** The mutable part of the environment. */
  datatype World = World(
    files: set<string>,
    contents: map<string, seq<RowData>>,
    open: bool,
    pending: seq<(string, RowData)>,
    calls: nat)

  function Get(contents: map<string, seq<RowData>>, t: string): seq<RowData>
  {
    if t in contents then contents[t] else []
  }

  /** The rows of a transaction, appended to their tables in order. */
  function CommitAll(contents: map<string, seq<RowData>>, pending: seq<(string, RowData)>): map<string, seq<RowData>>
  {
    if pending == [] then contents
    else
      var n := |pending| - 1;
      var c := CommitAll(contents, pending[..n]);
      c[pending[n].0 := Get(c, pending[n].0) + [pending[n].1]]
  }

  /** The rows of a pending list. */
  function RowsOf(pending: seq<(string, RowData)>): (rows: seq<RowData>)
    ensures |rows| == |pending|
    ensures forall k :: 0 <= k < |pending| ==> rows[k] == pending[k].1
  {
    seq(|pending|, k requires 0 <= k < |pending| => pending[k].1)
  }

  /** Committing rows that all belong to t appends them to t and leaves every other table alone. */
  lemma {:induction false} CommitOneTable(contents: map<string, seq<RowData>>, pending: seq<(string, RowData)>, t: string)
    requires forall k :: 0 <= k < |pending| ==> pending[k].0 == t
    ensures Get(CommitAll(contents, pending), t) == Get(contents, t) + RowsOf(pending)
    ensures forall u :: u != t ==> Get(CommitAll(contents, pending), u) == Get(contents, u)
  {
    if pending != [] {
      var n := |pending| - 1;
      var front := pending[..n];
      assert forall k :: 0 <= k < n ==> front[k] == pending[k];
      CommitOneTable(contents, front, t);
      var c := CommitAll(contents, front);
      assert pending[n].0 == t;
      assert CommitAll(contents, pending) == c[pending[n].0 := Get(c, pending[n].0) + [pending[n].1]];
      assert RowsOf(pending) == RowsOf(front) + [pending[n].1];
      ConcatAssoc(Get(contents, t), RowsOf(front), [pending[n].1]);
    }
  }

  /** The effect of one event. */
  function Apply(w: World, e: Event): World
  {
    match e
    case Converted(_, _, path, written) => if written.Some? then w.(files := w.files + {path}) else w
    case Discarded(path) => w.(files := w.files - {path})
    case Truncated(t) => w.(contents := w.contents[t := []])
    case Began => w.(open := true, pending := [])
    case Inserted(t, row, reply) =>
      if reply != Accepted then w.(calls := w.calls + 1)
      else if w.open then w.(calls := w.calls + 1, pending := w.pending + [(t, row)])
      else w.(calls := w.calls + 1, contents := w.contents[t := Get(w.contents, t) + [row]])
    case Committed => w.(contents := CommitAll(w.contents, w.pending), open := false, pending := [])
    case RolledBack => w.(open := false, pending := [])
  }

  /** The state after a sequence of events. */
  function Replay(w: World, events: seq<Event>): World
  {
    if events == [] then w else Apply(Replay(w, events[..|events| - 1]), events[|events| - 1])
  }

  lemma ReplaySnoc(w: World, events: seq<Event>, e: Event)
    ensures Replay(w, events + [e]) == Apply(Replay(w, events), e)
  {
    assert (events + [e])[..|events|] == events;
  }

  lemma ConcatAssoc<T>(a: seq<T>, b: seq<T>, c: seq<T>)
    ensures a + b + c == a + (b + c)
  {
  }

  lemma SplitAfterTruncate(d: seq<Event>, table: string, inserts: seq<Event>, last: Event)
    ensures d + [Truncated(table), Began] + inserts + [last] == (d + [Truncated(table)]) + ([Began] + inserts + [last])
  {
    assert [Truncated(table), Began] == [Truncated(table)] + [Began];
    ConcatAssoc(d, [Truncated(table)], [Began]);
  }

  lemma {:induction false} ReplayAppend(w: World, a: seq<Event>, b: seq<Event>)
    ensures Replay(w, a + b) == Replay(Replay(w, a), b)
    decreases |b|
  {
    if b != [] {
      var n := |b| - 1;
      ReplayAppend(w, a, b[..n]);
      assert (a + b)[..|a + b| - 1] == a + b[..n];
      assert (a + b)[|a + b| - 1] == b[n];
      calc {
        Replay(w, a + b);
        Apply(Replay(w, a + b[..n]), b[n]);
        Apply(Replay(Replay(w, a), b[..n]), b[n]);
        Replay(Replay(w, a), b);
      }
    } else {
      assert a + b == a;
    }
  }

  // ---------------------------------------------------------------------
  // The encoding step

  datatype Optimized = Optimized(events: seq<Event>, working: Option<string>)

  /** The encoding a file is converted from: the detected one, or SJIS when detection fails. */
  function SourceEncoding(detected: Option<string>): string
  {
    if detected.None? then "SJIS" else detected.value
  }

  /**
    A UTF-8 file is read where it is.  Any other file is converted into a
    fresh copy, which is read instead when the write reports a positive byte
    count; otherwise the run stops.
   */
  function Optimize(s: Setting, path: string): (o: Optimized)
  {
    if s.detect(path) == Some("UTF-8") then Optimized([], Some(path))
    else
      var ev := [Converted(path, SourceEncoding(s.detect(path)), s.freshPath, s.writeResult)];
      Optimized(ev, if s.writeResult.Some? && s.writeResult.value > 0 then Some(s.freshPath) else None)
  }

  /**
    The working path is the input path exactly when the file is detected as
    UTF-8; ASCII or a failed detection (read as SJIS) give the converted copy,
    and a write of zero bytes or a failed write gives none.
   */
  lemma WorkingPathRule(s: Setting, path: string)
    requires s.freshPath != path
    ensures Optimize(s, path).working == Some(path) <==> s.detect(path) == Some("UTF-8")
    ensures Optimize(s, path).working.None? <==>
      s.detect(path) != Some("UTF-8") && !(s.writeResult.Some? && s.writeResult.value > 0)
    ensures s.detect(path) != Some("UTF-8") ==>
      Optimize(s, path).events == [Converted(path, SourceEncoding(s.detect(path)), s.freshPath, s.writeResult)]
    ensures s.detect(path).None? ==> SourceEncoding(s.detect(path)) == "SJIS"
  {
  }

  // ---------------------------------------------------------------------
  // The insert loop

  datatype LoopResult = LoopResult(events: seq<Event>, counter: nat, thrown: Option<string>)

  /** Each record zipped with the column names, as array_combine pairs them. */
  function Rows(names: seq<string>, data: seq<Record>): (rows: seq<RowData>)
    requires forall k :: 0 <= k < |data| ==> Combinable(names, data[k])
    ensures |rows| == |data|
    ensures forall k :: 0 <= k < |data| ==> rows[k] == RowOf(names, data[k])
  {
    seq(|data|, k requires 0 <= k < |data| => RowOf(names, data[k]))
  }

  /** What insert_data answers to the n-th insert. */
  function AnswerTo(s: Setting, n: nat): Reply
  {
    s.replies(n)
  }

  /** The answers to n inserts when c0 inserts were made before them. */
  function Answers(s: Setting, c0: nat, n: nat): (answers: seq<Reply>)
    ensures |answers| == n
    ensures forall k :: 0 <= k < n ==> answers[k] == AnswerTo(s, c0 + k)
  {
    seq(n, k requires 0 <= k < n => AnswerTo(s, c0 + k))
  }

  /** The loop state after one more insert that got the answer reply. */
  function Next(r: LoopResult, table: string, row: RowData, reply: Reply): LoopResult
  {
    var ev := r.events + [Inserted(table, row, reply)];
    match reply
    case Accepted => LoopResult(ev, r.counter + 1, None)
    case Refused => LoopResult(ev, r.counter, None)
    case Threw(m) => LoopResult(ev, r.counter, Some(m))
  }

  /**
    Inserting the first n rows one after the other, counting the accepted
    ones, until the first insert that throws.  The k-th insert of the run gets
    the answer answers[k].
   */
  function InsertRun(table: string, rows: seq<RowData>, answers: seq<Reply>, n: nat): (r: LoopResult)
    requires n <= |rows| && n <= |answers|
    ensures r.counter <= |r.events| <= n
    ensures r.thrown.None? ==> |r.events| == n
  {
    if n == 0 then LoopResult([], 0, None)
    else
      var r := InsertRun(table, rows, answers, n - 1);
      if r.thrown.Some? then r else Next(r, table, rows[n - 1], answers[n - 1])
  }

  /** While nothing has thrown, the run goes on with the next row and its answer. */
  lemma InsertRunStep(table: string, rows: seq<RowData>, answers: seq<Reply>, n: nat)
    requires n < |rows| && n < |answers| && InsertRun(table, rows, answers, n).thrown.None?
    ensures InsertRun(table, rows, answers, n + 1) == Next(InsertRun(table, rows, answers, n), table, rows[n], answers[n])
  {
  }

  /** The loop only inserts, and only into the target table. */
  lemma {:induction false} InsertRunTouchesOneTable(table: string, rows: seq<RowData>, answers: seq<Reply>, n: nat)
    requires n <= |rows| && n <= |answers|
    ensures forall e :: e in InsertRun(table, rows, answers, n).events ==> e.Inserted? && e.table == table
  {
    if n > 0 {
      InsertRunTouchesOneTable(table, rows, answers, n - 1);
    }
  }

  /** After the first throw the loop does nothing more. */
  lemma {:induction false} InsertRunStops(table: string, rows: seq<RowData>, answers: seq<Reply>, i: nat, n: nat)
    requires i <= n <= |rows| && n <= |answers|
    requires InsertRun(table, rows, answers, i).thrown.Some?
    ensures InsertRun(table, rows, answers, n) == InsertRun(table, rows, answers, i)
    decreases n
  {
    if i < n {
      InsertRunStops(table, rows, answers, i, n - 1);
    }
  }

  /** The rows of the accepted inserts, with their tables. */
  function AcceptedRows(events: seq<Event>): seq<(string, RowData)>
  {
    if events == [] then []
    else
      var e := events[|events| - 1];
      AcceptedRows(events[..|events| - 1]) + (if e.Inserted? && e.reply == Accepted then [(e.table, e.row)] else [])
  }

  lemma AcceptedRowsSnoc(events: seq<Event>, e: Event)
    ensures AcceptedRows(events + [e]) ==
      AcceptedRows(events) + (if e.Inserted? && e.reply == Accepted then [(e.table, e.row)] else [])
  {
    assert (events + [e])[..|events|] == events;
  }

  /** The counter is the number of accepted inserts, and every accepted row belongs to the target table. */
  lemma {:induction false} CounterCountsAccepted(table: string, rows: seq<RowData>, answers: seq<Reply>, n: nat)
    requires n <= |rows| && n <= |answers|
    ensures var r := InsertRun(table, rows, answers, n);
      && r.counter == |AcceptedRows(r.events)|
      && forall k :: 0 <= k < |AcceptedRows(r.events)| ==> AcceptedRows(r.events)[k].0 == table
  {
    if n > 0 {
      CounterCountsAccepted(table, rows, answers, n - 1);
      var r := InsertRun(table, rows, answers, n - 1);
      if r.thrown.None? {
        InsertRunStep(table, rows, answers, n - 1);
        var e := Inserted(table, rows[n - 1], answers[n - 1]);
        AcceptedRowsSnoc(r.events, e);
        var acc, acc' := AcceptedRows(r.events), AcceptedRows(r.events + [e]);
        forall k | 0 <= k < |acc'|
          ensures acc'[k].0 == table
        {
          if k < |acc| {
            assert acc'[k] == acc[k];
          }
        }
      }
    }
  }

  /** Event k of the loop inserts the k-th row into the target table and carries the k-th answer. */
  lemma {:induction false} InsertRunEvents(table: string, rows: seq<RowData>, answers: seq<Reply>, n: nat)
    requires n <= |rows| && n <= |answers|
    ensures var r := InsertRun(table, rows, answers, n);
      forall k :: 0 <= k < |r.events| ==> r.events[k] == Inserted(table, rows[k], answers[k])
  {
    if n > 0 {
      InsertRunEvents(table, rows, answers, n - 1);
      if InsertRun(table, rows, answers, n - 1).thrown.None? {
        InsertRunStep(table, rows, answers, n - 1);
      }
    }
  }

  /** None of the first n answers is a throw. */
  predicate NoThrowBefore(answers: seq<Reply>, n: nat)
    requires n <= |answers|
  {
    forall j :: 0 <= j < n ==> !answers[j].Threw?
  }

  /**
    The loop throws exactly when one of its answers is a throw.  It then stops
    right after the first such insert and reports that answer's message.
   */
  lemma {:induction false} InsertRunThrown(table: string, rows: seq<RowData>, answers: seq<Reply>, n: nat)
    requires n <= |rows| && n <= |answers|
    ensures InsertRun(table, rows, answers, n).thrown.None? <==> NoThrowBefore(answers, n)
    ensures var r := InsertRun(table, rows, answers, n);
      r.thrown.Some? ==>
        var k := |r.events| - 1;
        0 <= k < n && NoThrowBefore(answers, k) && answers[k] == Threw(r.thrown.value)
  {
    if n > 0 {
      InsertRunThrown(table, rows, answers, n - 1);
      var r := InsertRun(table, rows, answers, n - 1);
      if r.thrown.None? {
        InsertRunStep(table, rows, answers, n - 1);
      } else {
        assert !answers[|r.events| - 1].Threw? ==> false;
        assert !NoThrowBefore(answers, n);
      }
    }
  }

  /** When the first throwing answer is the k-th, the loop makes k + 1 inserts and reports that answer's message. */
  lemma FirstThrowEndsRun(table: string, rows: seq<RowData>, answers: seq<Reply>, n: nat, k: nat)
    requires n <= |rows| && n <= |answers| && k < n
    requires NoThrowBefore(answers, k) && answers[k].Threw?
    ensures InsertRun(table, rows, answers, n).thrown == Some(answers[k].message)
    ensures |InsertRun(table, rows, answers, n).events| == k + 1
  {
    InsertRunThrown(table, rows, answers, n);
    var r := InsertRun(table, rows, answers, n);
    var m := |r.events| - 1;
    assert !NoThrowBefore(answers, n);
  }

  /** The rows among the first n whose insert was answered Accepted, in order. */
  function AcceptedPrefix(rows: seq<RowData>, answers: seq<Reply>, n: nat): seq<RowData>
    requires n <= |rows| && n <= |answers|
  {
    if n == 0 then []
    else AcceptedPrefix(rows, answers, n - 1) + (if answers[n - 1] == Accepted then [rows[n - 1]] else [])
  }

  lemma RowsOfSnoc(pending: seq<(string, RowData)>, q: (string, RowData))
    ensures RowsOf(pending + [q]) == RowsOf(pending) + [q.1]
  {
  }

  /** Without a throw, the rows the loop gets accepted are the rows answered Accepted, in batch order. */
  lemma {:induction false} InsertRunAcceptsInOrder(table: string, rows: seq<RowData>, answers: seq<Reply>, n: nat)
    requires n <= |rows| && n <= |answers| && NoThrowBefore(answers, n)
    ensures RowsOf(AcceptedRows(InsertRun(table, rows, answers, n).events)) == AcceptedPrefix(rows, answers, n)
  {
    if n > 0 {
      assert NoThrowBefore(answers, n - 1);
      InsertRunAcceptsInOrder(table, rows, answers, n - 1);
      InsertRunThrown(table, rows, answers, n - 1);
      var r := InsertRun(table, rows, answers, n - 1);
      InsertRunStep(table, rows, answers, n - 1);
      var e := Inserted(table, rows[n - 1], answers[n - 1]);
      assert InsertRun(table, rows, answers, n).events == r.events + [e];
      AcceptedRowsSnoc(r.events, e);
      var acc := AcceptedRows(r.events);
      if answers[n - 1] == Accepted {
        assert AcceptedRows(r.events + [e]) == acc + [(table, rows[n - 1])];
        RowsOfSnoc(acc, (table, rows[n - 1]));
        assert AcceptedPrefix(rows, answers, n) == AcceptedPrefix(rows, answers, n - 1) + [rows[n - 1]];
      } else {
        assert AcceptedRows(r.events + [e]) == acc;
        assert AcceptedPrefix(rows, answers, n) == AcceptedPrefix(rows, answers, n - 1);
      }
    }
  }

  /** Inserts inside an open transaction only queue their accepted rows. */
  lemma {:induction false} ReplayInserts(w: World, events: seq<Event>)
    requires w.open
    requires forall e :: e in events ==> e.Inserted?
    ensures Replay(w, events) == w.(pending := w.pending + AcceptedRows(events), calls := w.calls + |events|)
  {
    if events != [] {
      var n := |events| - 1;
      assert forall e :: e in events[..n] ==> e in events;
      ReplayInserts(w, events[..n]);
      assert events[n] in events;
    }
  }

  /** Accepted rows of inserts into one table all belong to that table. */
  lemma {:induction false} AcceptedRowsOfOneTable(events: seq<Event>, table: string)
    requires forall e :: e in events ==> e.Inserted? && e.table == table
    ensures forall k :: 0 <= k < |AcceptedRows(events)| ==> AcceptedRows(events)[k].0 == table
  {
    if events != [] {
      var n := |events| - 1;
      assert forall e :: e in events[..n] ==> e in events;
      AcceptedRowsOfOneTable(events[..n], table);
      assert events[n] in events;
    }
  }

  /** Conversions and discards touch only the files. */
  lemma {:induction false} TablesStay(w: World, events: seq<Event>)
    requires forall e :: e in events ==> e.Converted? || e.Discarded?
    ensures Replay(w, events) == w.(files := Replay(w, events).files)
  {
    if events != [] {
      var n := |events| - 1;
      assert forall e :: e in events[..n] ==> e in events;
      TablesStay(w, events[..n]);
      assert events[n] in events;
    }
  }

  /**
    The reload of one table: after file events, a truncation, the start of a
    transaction, inserts into that table and the end of the transaction, the
    table holds the accepted rows when the transaction was committed and
    nothing when it was rolled back; no other table and no file changes.
   */
  lemma Reload(w: World, pre: seq<Event>, table: string, inserts: seq<Event>, last: Event)
    requires forall e :: e in pre ==> e.Converted? || e.Discarded?
    requires forall e :: e in inserts ==> e.Inserted? && e.table == table
    requires last == Committed || last == RolledBack
    ensures var f := Replay(w, pre + [Truncated(table), Began] + inserts + [last]);
      && !f.open && f.pending == [] && f.files == Replay(w, pre).files
      && Get(f.contents, table) == (if last == Committed then RowsOf(AcceptedRows(inserts)) else [])
      && (forall u :: u != table ==> Get(f.contents, u) == Get(w.contents, u))
      && f.calls == w.calls + |inserts|
  {
    var head := pre + [Truncated(table), Began];
    TablesStay(w, pre);
    ReplaySnoc(w, pre, Truncated(table));
    ReplaySnoc(w, pre + [Truncated(table)], Began);
    assert pre + [Truncated(table)] + [Began] == head;
    var b := Replay(w, head);
    assert b.open && b.pending == [] && b.files == Replay(w, pre).files && b.calls == w.calls;
    assert b.contents == w.contents[table := []];
    ReplayAppend(w, head, inserts);
    ReplayInserts(b, inserts);
    var mid := Replay(w, head + inserts);
    assert mid == b.(pending := AcceptedRows(inserts), calls := w.calls + |inserts|) by {
      assert b.pending + AcceptedRows(inserts) == AcceptedRows(inserts);
    }
    ReplaySnoc(w, head + inserts, last);
    var f := Replay(w, head + inserts + [last]);
    assert f == Apply(mid, last);
    assert forall u :: u != table ==> Get(b.contents, u) == Get(w.contents, u);
    if last == Committed {
      AcceptedRowsOfOneTable(inserts, table);
      CommitOneTable(b.contents, AcceptedRows(inserts), table);
      assert f.contents == CommitAll(b.contents, AcceptedRows(inserts));
    } else {
      assert f.contents == b.contents;
    }
  }

  // ---------------------------------------------------------------------
  // One run

  datatype Run = Run(outcome: Outcome, events: seq<Event>)

  /** The discard of the converted copy, when the working path is one. */
  function DiscardCopy(csvFile: string, path: string): (events: seq<Event>)
  {
    if csvFile != path then [Discarded(path)] else []
  }

  /** The encoding step and, when a converted copy is read, its discard. */
  function Preamble(s: Setting, csvFile: string): (pre: seq<Event>)
    ensures forall e :: e in pre ==> e.Converted? || e.Discarded?
  {
    var opt := Optimize(s, csvFile);
    opt.events + (if opt.working.Some? then DiscardCopy(csvFile, opt.working.value) else [])
  }

  /** The CSV lines of a file. */
  function Lines(s: Setting, path: string): seq<seq<string>>
  {
    s.parse(path)
  }

  /** The records read from the working path with the table's format. */
  function Data(s: Setting, schema: seq<ColumnSpec>, path: string): (data: seq<Record>)
    ensures forall k :: 0 <= k < |data| ==> Combinable(Names(schema), data[k])
  {
    var names := Names(schema);
    var data := Batch(schema, Lines(s, path), s.decode);
    BatchWellFormed(schema, Lines(s, path), s.decode);
    assert forall k :: 0 <= k < |data| ==> Combinable(names, data[k]) by {
      forall k | 0 <= k < |data|
        ensures Combinable(names, data[k])
      {
        TargetColsOfWellFormed(names, data[k]);
      }
    }
    data
  }

  /** The insert loop over those records; the insert calls are numbered on from the calls made before. */
  function Loop(s: Setting, calls: nat, table: string, schema: seq<ColumnSpec>, path: string): LoopResult
  {
    var data := Data(s, schema, path);
    InsertRun(table, Rows(Names(schema), data), Answers(s, calls, |data|), |data|)
  }

  /** The loop of a run only inserts, and only into the target table. */
  lemma LoopTouchesOneTable(s: Setting, calls: nat, table: string, schema: seq<ColumnSpec>, path: string)
    ensures forall e :: e in Loop(s, calls, table, schema, path).events ==> e.Inserted? && e.table == table
  {
    var data := Data(s, schema, path);
    InsertRunTouchesOneTable(table, Rows(Names(schema), data), Answers(s, calls, |data|), |data|);
  }

  /**
    The part of a run that changes the database, once the records are read:
    the discard of a converted copy, the truncation, and the inserts inside one
    transaction that is committed, or rolled back on the first throw.
   */
  function Load(s: Setting, calls: nat, table: string, schema: seq<ColumnSpec>, csvFile: string, path: string): Run
  {
    var loop := Loop(s, calls, table, schema, path);
    var events := DiscardCopy(csvFile, path) + [Truncated(table), Began] + loop.events;
    if loop.thrown.Some? then Run(Failed(DatabaseError(loop.thrown.value)), events + [RolledBack])
    else Run(Completed(loop.counter, |Data(s, schema, path)|, table), events + [Committed])
  }

  /**
    A run in the order the importer takes its steps: the file check, the table
    check, the encoding step, reading and filtering, the empty-batch check, and
    then the load.
   */
  function ImportRun(s: Setting, w: World, table: string, schema: seq<ColumnSpec>, csvFile: string): (r: Run)
  {
    if csvFile !in w.files then Run(Failed(MissingFile), [])
    else if table !in s.tables then Run(Failed(UnknownTable), [])
    else
      var opt := Optimize(s, csvFile);
      if opt.working.None? then Run(Failed(WriteFailed), opt.events)
      else
        var path := opt.working.value;
        if Data(s, schema, path) == [] then Run(Failed(NoValidData), opt.events)
        else
          var load := Load(s, w.calls, table, schema, csvFile, path);
          Run(load.outcome, opt.events + load.events)
  }

  /** The run reaches the database: past the early checks, with a non-empty batch. */
  predicate ReachesDatabase(s: Setting, w: World, table: string, schema: seq<ColumnSpec>, csvFile: string)
  {
    && csvFile in w.files && table in s.tables
    && Optimize(s, csvFile).working.Some?
    && Data(s, schema, Optimize(s, csvFile).working.value) != []
  }

  /** The events of a run that reaches the database: the preamble, the truncation and the transaction. */
  lemma RunShape(s: Setting, w: World, table: string, schema: seq<ColumnSpec>, csvFile: string)
    requires ReachesDatabase(s, w, table, schema, csvFile)
    ensures var loop := Loop(s, w.calls, table, schema, Optimize(s, csvFile).working.value);
      ImportRun(s, w, table, schema, csvFile).events ==
        Preamble(s, csvFile) + [Truncated(table), Began] + loop.events + [if loop.thrown.Some? then RolledBack else Committed]
  {
    var opt := Optimize(s, csvFile);
    var path := opt.working.value;
    var loop := Loop(s, w.calls, table, schema, path);
    var d := DiscardCopy(csvFile, path);
    var last := if loop.thrown.Some? then RolledBack else Committed;
    var a, tb := opt.events, [Truncated(table), Began];
    assert ImportRun(s, w, table, schema, csvFile).events == a + Load(s, w.calls, table, schema, csvFile, path).events;
    assert Load(s, w.calls, table, schema, csvFile, path).events == d + tb + loop.events + [last];
    ConcatAssoc(a, d + tb + loop.events, [last]);
    ConcatAssoc(a, d + tb, loop.events);
    ConcatAssoc(a, d, tb);
  }

  /** Exactly the runs that reach the database end in a report of the count or in a database error. */
  lemma ReachedOutcomes(s: Setting, w: World, table: string, schema: seq<ColumnSpec>, csvFile: string)
    ensures ReachesDatabase(s, w, table, schema, csvFile) <==>
      ImportRun(s, w, table, schema, csvFile).outcome.Completed? || ImportRun(s, w, table, schema, csvFile).outcome.failure.DatabaseError?
  {
  }

  /** A missing file is reported before the table is looked at, and nothing at all happens. */
  lemma EarlyFailuresChangeNothing(s: Setting, w: World, table: string, schema: seq<ColumnSpec>, csvFile: string)
    ensures csvFile !in w.files ==> ImportRun(s, w, table, schema, csvFile).outcome == Failed(MissingFile)
    ensures ImportRun(s, w, table, schema, csvFile).outcome in {Failed(MissingFile), Failed(UnknownTable)} ==>
      ImportRun(s, w, table, schema, csvFile).events == [] && Replay(w, ImportRun(s, w, table, schema, csvFile).events) == w
  {
  }

  /**
    A table the database has but the format registry does not know yields no
    records, so the run stops before the database is touched.
   */
  lemma UnknownFormatLeavesTablesAlone(s: Setting, w: World, table: string, csvFile: string)
    requires table !in Supported
    ensures !ReachesDatabase(s, w, table, SchemaFor(table), csvFile)
    ensures ImportRun(s, w, table, SchemaFor(table), csvFile).outcome.Failed?
    ensures Replay(w, ImportRun(s, w, table, SchemaFor(table), csvFile).events).contents == w.contents
  {
    var opt := Optimize(s, csvFile);
    if opt.working.Some? {
      EmptySchemaKeepsNothing(Lines(s, opt.working.value), s.decode);
    }
    TablesStay(w, opt.events);
  }

  /**
    When no line keeps a cell the run stops before any discard, truncation or
    transaction: the tables are untouched and a converted copy stays behind.
   */
  lemma EmptyBatchTouchesNoTable(s: Setting, w: World, table: string, schema: seq<ColumnSpec>, csvFile: string)
    requires ImportRun(s, w, table, schema, csvFile).outcome == Failed(NoValidData)
    ensures forall e :: e in ImportRun(s, w, table, schema, csvFile).events ==> e.Converted?
    ensures Replay(w, ImportRun(s, w, table, schema, csvFile).events).contents == w.contents
    ensures s.detect(csvFile) != Some("UTF-8") ==> s.freshPath in Replay(w, ImportRun(s, w, table, schema, csvFile).events).files
  {
    var opt := Optimize(s, csvFile);
    assert csvFile in w.files && table in s.tables && opt.working.Some?;
    var events := opt.events;
    assert ImportRun(s, w, table, schema, csvFile).events == events;
    if s.detect(csvFile) != Some("UTF-8") {
      var conv := events[0];
      assert events == [] + [conv];
      ReplaySnoc(w, [], conv);
      assert Replay(w, events) == Apply(w, conv);
    }
  }

  /** The table is truncated at i, the transaction begins at i + 1, and neither happens anywhere else. */
  predicate TruncatedOnceThenBegan(events: seq<Event>, table: string, i: nat)
  {
    && i + 1 < |events| && events[i] == Truncated(table) && events[i + 1] == Began
    && forall k :: 0 <= k < |events| && (events[k].Truncated? || events[k].Began?) ==> k == i || k == i + 1
  }

  /** A run that reaches the database truncates the table exactly once, immediately before beginning the transaction. */
  lemma TruncateOnceBeforeBegin(s: Setting, w: World, table: string, schema: seq<ColumnSpec>, csvFile: string)
    requires ReachesDatabase(s, w, table, schema, csvFile)
    ensures exists i: nat :: TruncatedOnceThenBegan(ImportRun(s, w, table, schema, csvFile).events, table, i)
  {
    var path := Optimize(s, csvFile).working.value;
    var pre := Preamble(s, csvFile);
    var loop := Loop(s, w.calls, table, schema, path);
    LoopTouchesOneTable(s, w.calls, table, schema, path);
    var events := ImportRun(s, w, table, schema, csvFile).events;
    var last := if loop.thrown.Some? then RolledBack else Committed;
    RunShape(s, w, table, schema, csvFile);
    ShapeTruncatesOnce(pre, table, loop.events, last);
  }

  /** A trace made of file events, truncate, begin, inserts and one closing event truncates once, right before the begin. */
  lemma ShapeTruncatesOnce(pre: seq<Event>, table: string, inserts: seq<Event>, last: Event)
    requires forall e :: e in pre ==> e.Converted? || e.Discarded?
    requires forall e :: e in inserts ==> e.Inserted?
    requires last == Committed || last == RolledBack
    ensures TruncatedOnceThenBegan(pre + [Truncated(table), Began] + inserts + [last], table, |pre|)
  {
    var events := pre + [Truncated(table), Began] + inserts + [last];
    var i := |pre|;
    forall k | 0 <= k < |events|
      ensures events[k].Truncated? || events[k].Began? ==> k == i || k == i + 1
    {
      if k < i {
        assert events[k] == pre[k];
        assert pre[k] in pre;
      } else if i + 1 < k < |events| - 1 {
        assert events[k] == inserts[k - i - 2];
        assert inserts[k - i - 2] in inserts;
      }
    }
  }

  /** In a trace of that shape the closing event is the only commit or rollback. */
  lemma ShapeClosesOnce(pre: seq<Event>, table: string, inserts: seq<Event>, last: Event)
    requires forall e :: e in pre ==> e.Converted? || e.Discarded?
    requires forall e :: e in inserts ==> e.Inserted?
    ensures var events := pre + [Truncated(table), Began] + inserts + [last];
      forall e :: e in events && (e.Committed? || e.RolledBack?) ==> e == last
  {
  }

  /** The final count never exceeds the number of records, and the report names the target table. */
  lemma CounterWithinBatch(s: Setting, w: World, table: string, schema: seq<ColumnSpec>, csvFile: string)
    requires ImportRun(s, w, table, schema, csvFile).outcome.Completed?
    ensures var o := ImportRun(s, w, table, schema, csvFile).outcome;
      o.inserted <= o.total && o.total > 0 && o.table == table
  {
  }

  /**
    A throwing insert rolls the transaction back and nothing is committed: the
    table that was truncated stays empty, and every other table is unchanged.
   */
  lemma ThrowRollsBack(s: Setting, w: World, table: string, schema: seq<ColumnSpec>, csvFile: string)
    requires ImportRun(s, w, table, schema, csvFile).outcome.Failed?
    requires ImportRun(s, w, table, schema, csvFile).outcome.failure.DatabaseError?
    ensures var events := ImportRun(s, w, table, schema, csvFile).events;
      events[|events| - 1] == RolledBack && Committed !in events
    ensures var f := Replay(w, ImportRun(s, w, table, schema, csvFile).events);
      Get(f.contents, table) == [] && !f.open && f.pending == []
      && forall u :: u != table ==> Get(f.contents, u) == Get(w.contents, u)
  {
    var path := Optimize(s, csvFile).working.value;
    var pre := Preamble(s, csvFile);
    var loop := Loop(s, w.calls, table, schema, path);
    LoopTouchesOneTable(s, w.calls, table, schema, path);
    var events := ImportRun(s, w, table, schema, csvFile).events;
    ReachedOutcomes(s, w, table, schema, csvFile);
    RunShape(s, w, table, schema, csvFile);
    ShapeClosesOnce(pre, table, loop.events, RolledBack);
    Reload(w, pre, table, loop.events, RolledBack);
  }

  /**
    When the database first throws on the k-th insert of a run that reaches it,
    the run makes k + 1 inserts, rolls back and fails with that exception's
    message.  The truncated table stays empty and every other table
    is unchanged.
   */
  lemma InsertThrowRollsBack(s: Setting, w: World, table: string, schema: seq<ColumnSpec>, csvFile: string, k: nat)
    requires ReachesDatabase(s, w, table, schema, csvFile)
    requires k < |Data(s, schema, Optimize(s, csvFile).working.value)|
    requires NoThrowBefore(Answers(s, w.calls, |Data(s, schema, Optimize(s, csvFile).working.value)|), k)
    requires AnswerTo(s, w.calls + k).Threw?
    ensures ImportRun(s, w, table, schema, csvFile).outcome == Failed(DatabaseError(AnswerTo(s, w.calls + k).message))
    ensures |Loop(s, w.calls, table, schema, Optimize(s, csvFile).working.value).events| == k + 1
    ensures var f := Replay(w, ImportRun(s, w, table, schema, csvFile).events);
      Get(f.contents, table) == [] && forall u :: u != table ==> Get(f.contents, u) == Get(w.contents, u)
  {
    LoopStopsAtFirstThrow(s, w.calls, table, schema, Optimize(s, csvFile).working.value, k);
    ThrowFailsRun(s, w, table, schema, csvFile, AnswerTo(s, w.calls + k).message);
    ThrowRollsBack(s, w, table, schema, csvFile);
  }

  /** The failure a run reports when an insert throws carries the exception's message. */
  lemma ThrowFailsRun(s: Setting, w: World, table: string, schema: seq<ColumnSpec>, csvFile: string, m: string)
    requires ReachesDatabase(s, w, table, schema, csvFile)
    requires Loop(s, w.calls, table, schema, Optimize(s, csvFile).working.value).thrown == Some(m)
    ensures ImportRun(s, w, table, schema, csvFile).outcome == Failed(DatabaseError(m))
  {
  }

  /** The insert loop of a run stops at the first insert call the database throws on. */
  lemma LoopStopsAtFirstThrow(s: Setting, calls: nat, table: string, schema: seq<ColumnSpec>, path: string, k: nat)
    requires k < |Data(s, schema, path)|
    requires NoThrowBefore(Answers(s, calls, |Data(s, schema, path)|), k)
    requires AnswerTo(s, calls + k).Threw?
    ensures Loop(s, calls, table, schema, path).thrown == Some(AnswerTo(s, calls + k).message)
    ensures |Loop(s, calls, table, schema, path).events| == k + 1
  {
    var data := Data(s, schema, path);
    FirstThrowEndsRun(table, Rows(Names(schema), data), Answers(s, calls, |data|), |data|, k);
  }

  /** A run that reaches the database completes exactly when none of its inserts throws. */
  lemma CompletesUnlessInsertThrows(s: Setting, w: World, table: string, schema: seq<ColumnSpec>, csvFile: string)
    requires ReachesDatabase(s, w, table, schema, csvFile)
    ensures var data := Data(s, schema, Optimize(s, csvFile).working.value);
      ImportRun(s, w, table, schema, csvFile).outcome.Completed? <==> NoThrowBefore(Answers(s, w.calls, |data|), |data|)
  {
    var path := Optimize(s, csvFile).working.value;
    var data := Data(s, schema, path);
    InsertRunThrown(table, Rows(Names(schema), data), Answers(s, w.calls, |data|), |data|);
  }

  /**
    A completed run leaves the target table holding exactly the accepted rows,
    in batch order, as many as the reported count; every other table is
    unchanged and the transaction is closed.
   */
  lemma CompletedStoresAcceptedRows(s: Setting, w: World, table: string, schema: seq<ColumnSpec>, csvFile: string)
    requires ImportRun(s, w, table, schema, csvFile).outcome.Completed?
    ensures var f := Replay(w, ImportRun(s, w, table, schema, csvFile).events);
      && Get(f.contents, table) == RowsOf(AcceptedRows(Loop(s, w.calls, table, schema, Optimize(s, csvFile).working.value).events))
      && |Get(f.contents, table)| == ImportRun(s, w, table, schema, csvFile).outcome.inserted
      && !f.open && f.pending == []
      && forall u :: u != table ==> Get(f.contents, u) == Get(w.contents, u)
    ensures var data := Data(s, schema, Optimize(s, csvFile).working.value);
      Get(Replay(w, ImportRun(s, w, table, schema, csvFile).events).contents, table) ==
        AcceptedPrefix(Rows(Names(schema), data), Answers(s, w.calls, |data|), |data|)
  {
    var path := Optimize(s, csvFile).working.value;
    var pre := Preamble(s, csvFile);
    var loop := Loop(s, w.calls, table, schema, path);
    LoopTouchesOneTable(s, w.calls, table, schema, path);
    ReachedOutcomes(s, w, table, schema, csvFile);
    RunShape(s, w, table, schema, csvFile);
    Reload(w, pre, table, loop.events, Committed);
    var data := Data(s, schema, path);
    var rows, answers := Rows(Names(schema), data), Answers(s, w.calls, |data|);
    CounterCountsAccepted(table, rows, answers, |data|);
    InsertRunThrown(table, rows, answers, |data|);
    InsertRunAcceptsInOrder(table, rows, answers, |data|);
  }

  /**
    The encoding step followed by the discard of the copy it read leaves the
    files as they were, provided the copy's name was not already taken; the
    copy is discarded exactly when the file was converted.
   */
  lemma PreambleRestoresFiles(s: Setting, w: World, csvFile: string)
    requires Optimize(s, csvFile).working.Some?
    requires s.freshPath != csvFile && s.freshPath !in w.files
    ensures Replay(w, Preamble(s, csvFile)).files == w.files
    ensures Discarded(s.freshPath) in Preamble(s, csvFile) <==> s.detect(csvFile) != Some("UTF-8")
  {
    var pre := Preamble(s, csvFile);
    if s.detect(csvFile) != Some("UTF-8") {
      var conv := Optimize(s, csvFile).events[0];
      assert pre == [conv] + [Discarded(s.freshPath)];
      ReplaySnoc(w, [], conv);
      assert [] + [conv] == [conv];
      ReplaySnoc(w, [conv], Discarded(s.freshPath));
      assert Replay(w, [conv]).files == w.files + {s.freshPath};
    } else {
      assert pre == [];
    }
  }

  /** The events after the encoding step discard no file. */
  lemma ReloadDiscardsNothing(table: string, inserts: seq<Event>, last: Event, path: string)
    requires forall e :: e in inserts ==> e.Inserted?
    requires last == Committed || last == RolledBack
    ensures Discarded(path) !in [Truncated(table), Began] + inserts + [last]
  {
    assert Discarded(path) !in inserts;
  }

  /**
    A run that reaches the database removes the converted copy it made, so it
    leaves the file system as it found it, provided the copy's name was not
    already taken.
   */
  lemma CopyIsDiscarded(s: Setting, w: World, table: string, schema: seq<ColumnSpec>, csvFile: string)
    requires ReachesDatabase(s, w, table, schema, csvFile)
    requires s.freshPath != csvFile && s.freshPath !in w.files
    ensures Replay(w, ImportRun(s, w, table, schema, csvFile).events).files == w.files
    ensures Discarded(s.freshPath) in ImportRun(s, w, table, schema, csvFile).events <==> s.detect(csvFile) != Some("UTF-8")
  {
    var path := Optimize(s, csvFile).working.value;
    var pre := Preamble(s, csvFile);
    var loop := Loop(s, w.calls, table, schema, path);
    LoopTouchesOneTable(s, w.calls, table, schema, path);
    var last := if loop.thrown.Some? then RolledBack else Committed;
    var events := ImportRun(s, w, table, schema, csvFile).events;
    RunShape(s, w, table, schema, csvFile);
    Reload(w, pre, table, loop.events, last);
    PreambleRestoresFiles(s, w, csvFile);
    ReloadDiscardsNothing(table, loop.events, last, s.freshPath);
  }

  // ---------------------------------------------------------------------
  // The report

  /**
    The text the process ends with.  The error texts are written in pieces,
    which reads the same: the verifier reasons about the first character of a
    short literal, not of a long one.
   */
  function Message(o: Outcome): string
  {
    match o
    case Failed(MissingFile) => "Could not find " + "the CSV file to import.\n"
    case Failed(UnknownTable) => "The table specified " + "as the import destination " + "does not exist.\n"
    case Failed(WriteFailed) => "Oops, this CSV " + "does not contain any valid data to import."
    case Failed(NoValidData) => "Oops, this CSV " + "does not contain any valid data to import.\n"
    case Failed(DatabaseError(m)) => "Error: " + m
    case Completed(k, n, t) =>
      if k > 0 then NatToString(k) + CompletionTail(n, t)
      else "Failed to insert data.\n"
  }

  /** The success report after the count of inserted rows. */
  function CompletionTail(n: nat, t: string): (tail: string)
    ensures |tail| > 0 && tail[0] == '/'
  {
    var tail := "/" + (NatToString(n) + " data has been completed insertion into the \"" + t + "\" table.\n");
    assert tail[0] == '/';
    tail
  }

  /** The leading digits of a numeral followed by a non-digit are the numeral. */
  lemma {:induction false} LeadingDigitsStopAt(d: string, rest: string)
    requires AllDigits(d) && |rest| > 0 && !IsDigit(rest[0])
    ensures LeadingDigits(d + rest) == d
  {
    if d != [] {
      assert (d + rest)[1..] == d[1..] + rest;
      LeadingDigitsStopAt(d[1..], rest);
    }
  }

  /** Reading a success report back as an integer gives the number of inserted rows. */
  lemma SuccessReportCarriesCount(k: nat, n: nat, t: string)
    requires 0 < k <= IntMax
    ensures IntCast(Message(Completed(k, n, t))) == k
  {
    var d := NatToString(k);
    var rest := CompletionTail(n, t);
    LeadingDigitsStopAt(d, rest);
    assert IsDigit((d + rest)[0]);
  }

  /** Only a run that stored at least one row reports a message that starts with a digit. */
  lemma ReportStartsWithDigitOnlyOnSuccess(o: Outcome)
    ensures |Message(o)| > 0
    ensures IsDigit(Message(o)[0]) <==> o.Completed? && o.inserted > 0
  {
    if o.Completed? && o.inserted > 0 {
      var d := NatToString(o.inserted);
      assert Message(o) == d + CompletionTail(o.total, o.table);
      assert Message(o)[0] == d[0] && IsDigit(d[0]);
    }
  }


  // ---------------------------------------------------------------------
  // The collaborator and the importer

  /** The file system and the database, with their answers fixed by a Setting. */
  class Host {
    const setting: Setting
    var files: set<string>
    var contents: map<string, seq<RowData>>
    var open: bool
    var pending: seq<(string, RowData)>
    var calls: nat
    ghost var trace: seq<Event>

    function State(): World
      reads this
    {
      World(files, contents, open, pending, calls)
    }

    constructor (setting: Setting, files: set<string>, contents: map<string, seq<RowData>>)
      ensures this.setting == setting
      ensures State() == World(files, contents, false, [], 0)
      ensures trace == []
    {
      this.setting := setting;
      this.files := files;
      this.contents := contents;
      open := false;
      pending := [];
      calls := 0;
      trace := [];
    }

    /** file_exists */
    method FileExists(path: string) returns (b: bool)
      ensures b <==> path in files
    {
      b := path in files;
    }

    /** table_exists */
    method TableExists(table: string) returns (b: bool)
      ensures b <==> table in setting.tables
    {
      b := table in setting.tables;
    }

    /** mb_detect_encoding over the file's contents; None stands for false. */
    method DetectEncoding(path: string) returns (enc: Option<string>)
      ensures enc == setting.detect(path)
    {
      enc := setting.detect(path);
    }

    /** The CSV lines of a file. */
    method ReadCsv(path: string) returns (rows: seq<seq<string>>)
      ensures rows == Lines(setting, path)
    {
      rows := Lines(setting, path);
    }

    /** Write the converted contents of source to path; a result of None stands for false. */
    method PutContents(source: string, from: string, path: string) returns (written: Option<nat>)
      modifies this
      ensures written == setting.writeResult
      ensures State() == Apply(old(State()), Converted(source, from, path, written))
      ensures trace == old(trace) + [Converted(source, from, path, written)]
    {
      written := setting.writeResult;
      if written.Some? {
        files := files + {path};
      }
      trace := trace + [Converted(source, from, path, written)];
    }

    /** unlink, errors suppressed */
    method Unlink(path: string)
      modifies this
      ensures State() == Apply(old(State()), Discarded(path))
      ensures trace == old(trace) + [Discarded(path)]
    {
      files := files - {path};
      trace := trace + [Discarded(path)];
    }

    method Truncate(table: string)
      modifies this
      ensures State() == Apply(old(State()), Truncated(table))
      ensures trace == old(trace) + [Truncated(table)]
    {
      contents := contents[table := []];
      trace := trace + [Truncated(table)];
    }

    method BeginTransaction()
      modifies this
      ensures State() == Apply(old(State()), Began)
      ensures trace == old(trace) + [Began]
    {
      open := true;
      pending := [];
      trace := trace + [Began];
    }

    /** insert_data: the answer is the one the setting gives to this call. */
    method InsertData(table: string, row: RowData) returns (reply: Reply)
      modifies this
      ensures reply == AnswerTo(setting, old(calls))
      ensures State() == Apply(old(State()), Inserted(table, row, reply))
      ensures trace == old(trace) + [Inserted(table, row, reply)]
    {
      reply := AnswerTo(setting, calls);
      calls := calls + 1;
      if reply == Accepted {
        if open {
          pending := pending + [(table, row)];
        } else {
          contents := contents[table := Get(contents, table) + [row]];
        }
      }
      trace := trace + [Inserted(table, row, reply)];
    }

    method Commit()
      modifies this
      ensures State() == Apply(old(State()), Committed)
      ensures trace == old(trace) + [Committed]
    {
      contents := CommitAll(contents, pending);
      open := false;
      pending := [];
      trace := trace + [Committed];
    }

    method RollBack()
      modifies this
      ensures State() == Apply(old(State()), RolledBack)
      ensures trace == old(trace) + [RolledBack]
    {
      open := false;
      pending := [];
      trace := trace + [RolledBack];
    }
  }

  /**
    array_combine of the columns present in a record with its values; on a
    well-formed record the two have the same length, so it never fails.
   */
  method CombineRecord(names: seq<string>, record: Record) returns (row: RowData)
    requires Combinable(names, record)
    ensures row == RowOf(names, record)
  {
    var combined := ArrayCombine(TargetCols(names, record), Values(record));
    assert combined == Some(RowOf(names, record));
    row := combined.value;
  }

  /** The importer; its database and file system are the host. */
  class BulkCore {
    const host: Host

    constructor (host: Host)
      ensures this.host == host
    {
      this.host := host;
    }

    /** Convert the file to UTF-8 when needed and return the path to read, or None when the copy cannot be written. */
    method OptimizeFile(path: string) returns (working: Option<string>)
      modifies host
      ensures working == Optimize(host.setting, path).working
      ensures host.State() == Replay(old(host.State()), Optimize(host.setting, path).events)
      ensures host.trace == old(host.trace) + Optimize(host.setting, path).events
    {
      var enc := host.DetectEncoding(path);
      if enc == Some("UTF-8") {
        return Some(path);
      }
      var from := if enc.None? then "SJIS" else enc.value;
      var target := host.setting.freshPath;
      var written := host.PutContents(path, from, target);
      ReplaySnoc(old(host.State()), [], Converted(path, from, target, written));
      assert [] + [Converted(path, from, target, written)] == Optimize(host.setting, path).events;
      if written.Some? && written.value > 0 {
        working := Some(target);
      } else {
        working := None;
      }
    }

    /** Remove a file that has been read; a failure to remove it is ignored. */
    method DiscardFile(path: string)
      modifies host
      ensures host.State() == Apply(old(host.State()), Discarded(path))
      ensures host.trace == old(host.trace) + [Discarded(path)]
    {
      host.Unlink(path);
    }

    /**
      The insert loop: every record zipped with its column names and inserted,
      counting the accepted inserts, until the first insert that throws.
     */
    method InsertAll(table: string, names: seq<string>, data: seq<Record>) returns (counter: nat, thrown: Option<string>)
      requires forall k :: 0 <= k < |data| ==> Combinable(names, data[k])
      modifies host
      ensures var loop := InsertRun(table, Rows(names, data), Answers(host.setting, old(host.calls), |data|), |data|);
        && counter == loop.counter && thrown == loop.thrown
        && host.State() == Replay(old(host.State()), loop.events)
        && host.trace == old(host.trace) + loop.events
    {
      ghost var w0 := host.State();
      ghost var t0 := host.trace;
      ghost var answers := Answers(host.setting, w0.calls, |data|);
      ghost var rows := Rows(names, data);
      counter := 0;
      thrown := None;
      var i := 0;
      ghost var r := LoopResult([], 0, None);
      assert t0 + [] == t0;
      while i < |data| && thrown.None?
        invariant 0 <= i <= |data|
        invariant r == InsertRun(table, rows, answers, i) && |r.events| == i
        invariant counter == r.counter && thrown == r.thrown
        invariant host.calls == w0.calls + i
        invariant host.State() == Replay(w0, r.events)
        invariant host.trace == t0 + r.events
        decreases |data| - i
      {
        var reply;
        reply, r := InsertNext(table, names, data, i, w0, t0, r);
        if reply == Accepted {
          counter := counter + 1;
        } else if reply.Threw? {
          thrown := Some(reply.message);
        }
        i := i + 1;
      }
      if i < |data| {
        InsertRunStops(table, rows, answers, i, |data|);
      }
    }

    /**
      One turn of the insert loop: the next record inserted, the run so far
      extended by its answer, and the host's state and trace kept in step.
     */
    method InsertNext(table: string, names: seq<string>, data: seq<Record>, i: nat, ghost w0: World, ghost t0: seq<Event>, ghost r: LoopResult)
      returns (reply: Reply, ghost next: LoopResult)
      requires forall k :: 0 <= k < |data| ==> Combinable(names, data[k])
      requires i < |data|
      requires r == InsertRun(table, Rows(names, data), Answers(host.setting, w0.calls, |data|), i) && r.thrown.None?
      requires host.calls == w0.calls + i && host.State() == Replay(w0, r.events) && host.trace == t0 + r.events
      modifies host
      ensures next == InsertRun(table, Rows(names, data), Answers(host.setting, w0.calls, |data|), i + 1)
      ensures next == Next(r, table, RowOf(names, data[i]), reply)
      ensures host.calls == w0.calls + i + 1
      ensures host.State() == Replay(w0, next.events) && host.trace == t0 + next.events
    {
      ghost var answers := Answers(host.setting, w0.calls, |data|);
      ghost var rows := Rows(names, data);
      assert answers[i] == AnswerTo(host.setting, host.calls);
      reply := InsertRecord(table, names, data[i]);
      assert rows[i] == RowOf(names, data[i]);
      ghost var ev := Inserted(table, rows[i], reply);
      assert host.State() == Apply(Replay(w0, r.events), ev);
      ReplaySnoc(w0, r.events, ev);
      ConcatAssoc(t0, r.events, [ev]);
      InsertRunStep(table, rows, answers, i);
      next := Next(r, table, rows[i], reply);
      assert next.events == r.events + [ev];
    }

    /** One insert: the record zipped with its column names and handed to insert_data. */
    method InsertRecord(table: string, names: seq<string>, record: Record) returns (reply: Reply)
      requires Combinable(names, record)
      modifies host
      ensures reply == AnswerTo(host.setting, old(host.calls)) && host.calls == old(host.calls) + 1
      ensures host.State() == Apply(old(host.State()), Inserted(table, RowOf(names, record), reply))
      ensures host.trace == old(host.trace) + [Inserted(table, RowOf(names, record), reply)]
    {
      var row := CombineRecord(names, record);
      reply := host.InsertData(table, row);
    }

    /**
      The transaction: begin, the insert loop, then commit; when an insert
      throws the transaction is rolled back instead.
     */
    method InsertBatch(table: string, names: seq<string>, data: seq<Record>) returns (counter: nat, thrown: Option<string>)
      requires forall k :: 0 <= k < |data| ==> Combinable(names, data[k])
      modifies host
      ensures var loop := InsertRun(table, Rows(names, data), Answers(host.setting, old(host.calls), |data|), |data|);
        var events := [Began] + loop.events + [if loop.thrown.Some? then RolledBack else Committed];
        && counter == loop.counter && thrown == loop.thrown
        && host.State() == Replay(old(host.State()), events)
        && host.trace == old(host.trace) + events
    {
      ghost var w0 := host.State();
      ghost var t0 := host.trace;
      host.BeginTransaction();
      ReplaySnoc(w0, [], Began);
      assert [] + [Began] == [Began];
      ghost var loop := InsertRun(table, Rows(names, data), Answers(host.setting, w0.calls, |data|), |data|);
      counter, thrown := InsertAll(table, names, data);
      ReplayAppend(w0, [Began], loop.events);
      ghost var evs := [Began] + loop.events;
      ConcatAssoc(t0, [Began], loop.events);
      ghost var last := if loop.thrown.Some? then RolledBack else Committed;
      if thrown.Some? {
        host.RollBack();
      } else {
        host.Commit();
      }
      ReplaySnoc(w0, evs, last);
      ConcatAssoc(t0, evs, [last]);
    }

    /**
      The load: discard a converted copy, truncate the table, and insert the
      records in one transaction.
     */
    method LoadTable(table: string, schema: seq<ColumnSpec>, csvFile: string, path: string, data: seq<Record>)
      returns (outcome: Outcome)
      requires data == Data(host.setting, schema, path)
      modifies host
      ensures outcome == Load(host.setting, old(host.calls), table, schema, csvFile, path).outcome
      ensures host.State() == Replay(old(host.State()), Load(host.setting, old(host.calls), table, schema, csvFile, path).events)
      ensures host.trace == old(host.trace) + Load(host.setting, old(host.calls), table, schema, csvFile, path).events
    {
      ghost var w0 := host.State();
      ghost var t0 := host.trace;
      ghost var d := DiscardCopy(csvFile, path);
      if csvFile != path {
        DiscardFile(path);
        ReplaySnoc(w0, [], Discarded(path));
        assert [] + [Discarded(path)] == d;
      } else {
        assert t0 + d == t0 && Replay(w0, d) == w0;
      }
      assert host.calls == w0.calls;
      host.Truncate(table);
      ReplaySnoc(w0, d, Truncated(table));
      ghost var evs := d + [Truncated(table)];
      ConcatAssoc(t0, d, [Truncated(table)]);
      assert host.calls == w0.calls && host.State() == Replay(w0, evs) && host.trace == t0 + evs;
      ghost var w1 := host.State();
      ghost var t1 := host.trace;
      var counter, thrown := InsertBatch(table, Names(schema), data);
      ghost var loop := Loop(host.setting, w0.calls, table, schema, path);
      ghost var tail := [Began] + loop.events + [if loop.thrown.Some? then RolledBack else Committed];
      assert host.State() == Replay(w1, tail) && host.trace == t1 + tail;
      ReplayAppend(w0, evs, tail);
      ConcatAssoc(t0, evs, tail);
      ghost var last := if loop.thrown.Some? then RolledBack else Committed;
      SplitAfterTruncate(d, table, loop.events, last);
      assert Load(host.setting, w0.calls, table, schema, csvFile, path).events == evs + tail;
      if thrown.Some? {
        outcome := Failed(DatabaseError(thrown.value));
      } else {
        outcome := Completed(counter, |data|, table);
      }
    }

    /** One run of the importer, returning its outcome and the message it ends with. */
    method ImportCsv(table: string, csvFile: string) returns (outcome: Outcome, message: string)
      modifies host
      ensures outcome == ImportRun(host.setting, old(host.State()), table, SchemaFor(table), csvFile).outcome
      ensures host.State() == Replay(old(host.State()), ImportRun(host.setting, old(host.State()), table, SchemaFor(table), csvFile).events)
      ensures host.trace == old(host.trace) + ImportRun(host.setting, old(host.State()), table, SchemaFor(table), csvFile).events
      ensures message == Message(outcome)
    {
      ghost var w0 := host.State();
      ghost var t0 := host.trace;
      var present := host.FileExists(csvFile);
      if !present {
        outcome := Failed(MissingFile);
        message := Message(outcome);
        return;
      }
      var known := host.TableExists(table);
      if !known {
        outcome := Failed(UnknownTable);
        message := Message(outcome);
        return;
      }
      var working := OptimizeFile(csvFile);
      if working.None? {
        outcome := Failed(WriteFailed);
        message := Message(outcome);
        return;
      }
      ghost var evs := Optimize(host.setting, csvFile).events;
      var path := working.value;
      var rows := host.ReadCsv(path);
      var schema := SchemaFor(table);
      var data := ReadRecords(schema, rows, host.setting.decode);
      if data == [] {
        outcome := Failed(NoValidData);
        message := Message(outcome);
        return;
      }
      ghost var load := Load(host.setting, w0.calls, table, schema, csvFile, path);
      outcome := LoadTable(table, schema, csvFile, path, data);
      ReplayAppend(w0, evs, load.events);
      ConcatAssoc(t0, evs, load.events);
      message := Message(outcome);
    }
  }
}
