/**
 * The bookkeeping of `DBOperationBenchmarker` in `db_performance.py`: the tuning
 * advice `analyze_operation` derives from an operation and its SQL text, and
 * `run_benchmark_suite`, which benchmarks each operation in turn, attaches the
 * advice to every run that succeeded and records those runs in
 * `performance_data`. What running an operation against the database gives (its
 * timings, or the database error) is part of the operation.
 */
module DbPerformance {
  import opened Wrappers
  import opened Ascii

  /** The suggestions `analyze_operation` can make. */
  datatype Suggestion =
    | DataTypes | IndexAfterCreate | BulkInsert | DisableIndexes
    | WhereIndex | JoinIndex | NoStar | Batching | AlterWindows
  {
    /** The text of the suggestion. */
    function Text(): string {
      match this
      case DataTypes => "Use appropriate data types for columns to optimize storage."
      case IndexAfterCreate => "Consider creating indexes after table creation for frequently queried columns."
      case BulkInsert => "Use bulk inserts (executemany) for better performance."
      case DisableIndexes => "Disable indexes during large inserts and rebuild them after."
      case WhereIndex => "Create indexes on columns used in WHERE clauses."
      case JoinIndex => "Ensure joined columns have appropriate indexes."
      case NoStar => "Specify only needed columns instead of using *."
      case Batching => "Consider batching large UPDATE/DELETE operations."
      case AlterWindows => "Avoid frequent ALTER operations on large tables; use maintenance windows."
    }
  }

  /** The operations the rules know, by their upper-cased name. */
  datatype OperationKind = Create | Insert | Select | Update | Delete | Alter | OtherOperation

  function KindOf(op: string): OperationKind {
    if op == "CREATE" then Create
    else if op == "INSERT" then Insert
    else if op == "SELECT" then Select
    else if op == "UPDATE" then Update
    else if op == "DELETE" then Delete
    else if op == "ALTER" then Alter
    else OtherOperation
  }

  /** The query text the rules search: lower-cased, surrounding white space
      removed. */
  function QueryKey(query: string): string {
    Strip(LowerStr(query))
  }

  /** The suggestion `s` when `c` holds, nothing otherwise. */
  function When(c: bool, s: Suggestion): seq<Suggestion> {
    if c then [s] else []
  }

  /** The five rules of `analyze_operation`, each for the operation kind it
      names and empty for the others. */
  function CreateRule(k: OperationKind, q: string): seq<Suggestion> {
    if k == Create then [DataTypes] + When(!Contains(q, "index"), IndexAfterCreate) else []
  }

  function InsertRule(k: OperationKind): seq<Suggestion> {
    if k == Insert then [BulkInsert, DisableIndexes] else []
  }

  function SelectRule(k: OperationKind, q: string): seq<Suggestion> {
    if k == Select then When(Contains(q, "where"), WhereIndex) + When(Contains(q, "join"), JoinIndex) + When(Contains(q, "*"), NoStar)
    else []
  }

  function UpdateDeleteRule(k: OperationKind, q: string): seq<Suggestion> {
    if k == Update || k == Delete then When(Contains(q, "where"), WhereIndex) + [Batching] else []
  }

  function AlterRule(k: OperationKind): seq<Suggestion> {
    if k == Alter then [AlterWindows] else []
  }

  /** The advice for an operation kind and a searched query text: the rules'
      suggestions, rule after rule. */
  function Rules(k: OperationKind, q: string): seq<Suggestion> {
    CreateRule(k, q) + InsertRule(k) + SelectRule(k, q) + UpdateDeleteRule(k, q) + AlterRule(k)
  }

  /** The advice of `analyze_operation`: the operation is compared in upper
      case and the query searched in lower case, stripped. */
  function Advice(operation: string, query: string): seq<Suggestion> {
    Rules(KindOf(UpperStr(operation)), QueryKey(query))
  }

  /** What one benchmark run yields: the mean, least and greatest time of its
      iterations, and their number. */
  datatype Measurement = Measurement(avgTime: real, minTime: real, maxTime: real, iterations: nat)

  /** One entry of the suite: the operation's name, its SQL text and what running
      it against the database gives. */
  datatype Operation = Operation(operation: string, query: string, outcome: Result<Measurement, string>)

  /** A result dictionary: the error of a failed run with the operation as
      given, or the timings of a run with the operation upper-cased and, once
      analysed, its suggestions. */
  datatype Report =
    | ErrorReport(error: string, operation: string, query: string)
    | TimingReport(operation: string, query: string, timing: Measurement, optimizations: Option<seq<Suggestion>>)

  /** The result of `benchmark_operation`. */
  function BenchmarkReport(op: Operation): (r: Report)
    ensures r.ErrorReport? <==> op.outcome.Failure?
    ensures r.ErrorReport? ==> r == ErrorReport(op.outcome.error, op.operation, op.query)
    ensures r.TimingReport? ==> r == TimingReport(UpperStr(op.operation), op.query, op.outcome.value, None)
  {
    match op.outcome
    case Failure(e) => ErrorReport(e, op.operation, op.query)
    case Success(m) => TimingReport(UpperStr(op.operation), op.query, m, None)
  }

  /** The result the suite reports for one operation: a successful run carries
      the advice for its operation and query. */
  function SuiteEntry(op: Operation): Report {
    var r := BenchmarkReport(op);
    if r.TimingReport? then r.(optimizations := Some(Advice(op.operation, op.query))) else r
  }

  /** The results of a suite, operation by operation. */
  function SuiteEntries(ops: seq<Operation>): (r: seq<Report>)
    ensures |r| == |ops|
  {
    if ops == [] then [] else SuiteEntries(ops[..|ops| - 1]) + [SuiteEntry(ops[|ops| - 1])]
  }

  /** The results that go into `performance_data`: the error-free ones, in order. */
  function Recorded(results: seq<Report>): (r: seq<Report>)
    ensures |r| <= |results|
  {
    if results == [] then []
    else
      var last := results[|results| - 1];
      Recorded(results[..|results| - 1]) + if last.TimingReport? then [last] else []
  }

  class Benchmarker {
    var performanceData: seq<Report>

    constructor ()
      ensures performanceData == []
    {
      performanceData := [];
    }

    /** `analyze_operation`: lower-cases and strips the query, upper-cases the
        operation, then applies the rules. */
    method AnalyzeOperation(operation: string, query: string) returns (suggestions: seq<Suggestion>)
      ensures suggestions == Advice(operation, query)
    {
      var q := QueryKey(query);
      var op := KindOf(UpperStr(operation));
      suggestions := ApplyRules(op, q);
    }

    /** The rules of `analyze_operation`, appending their suggestions in turn. */
    method ApplyRules(op: OperationKind, q: string) returns (suggestions: seq<Suggestion>)
      ensures suggestions == Rules(op, q)
    {
      suggestions := [];
      if op == Create {
        suggestions := suggestions + [DataTypes];
        if !Contains(q, "index") {
          suggestions := suggestions + [IndexAfterCreate];
        }
      }
      assert suggestions == CreateRule(op, q);
      if op == Insert {
        suggestions := suggestions + [BulkInsert];
        suggestions := suggestions + [DisableIndexes];
      }
      assert suggestions == CreateRule(op, q) + InsertRule(op);
      ghost var before := suggestions;
      if op == Select {
        if Contains(q, "where") {
          suggestions := suggestions + [WhereIndex];
        }
        if Contains(q, "join") {
          suggestions := suggestions + [JoinIndex];
        }
        if Contains(q, "*") {
          suggestions := suggestions + [NoStar];
        }
      }
      assert suggestions == before + SelectRule(op, q);
      before := suggestions;
      if op == Update || op == Delete {
        if Contains(q, "where") {
          suggestions := suggestions + [WhereIndex];
        }
        suggestions := suggestions + [Batching];
      }
      assert suggestions == before + UpdateDeleteRule(op, q);
      before := suggestions;
      if op == Alter {
        suggestions := suggestions + [AlterWindows];
      }
      assert suggestions == before + AlterRule(op);
    }

    /** `run_benchmark_suite`: one result per operation, in order; the
        error-free ones get their suggestions and are appended to
        `performance_data`. */
    method RunBenchmarkSuite(operations: seq<Operation>) returns (results: seq<Report>)
      modifies this
      ensures results == SuiteEntries(operations)
      ensures performanceData == old(performanceData) + Recorded(results)
      ensures |results| == |operations|
      ensures forall i :: 0 <= i < |operations| ==> SuiteReports(operations[i], results[i])
    {
      results := [];
      var i := 0;
      while i < |operations|
        invariant 0 <= i <= |operations|
        invariant results == SuiteEntries(operations[..i])
        invariant performanceData == old(performanceData) + Recorded(results)
      {
        results := SuiteStep(operations, i, results, old(performanceData));
        i := i + 1;
      }
      assert operations[..i] == operations;
      SuiteReportsEachRun(operations);
    }

    /** One pass of the suite's loop, as the loop's invariant sees it. */
    method SuiteStep(operations: seq<Operation>, i: nat, results: seq<Report>, ghost base: seq<Report>)
      returns (extended: seq<Report>)
      requires i < |operations|
      requires results == SuiteEntries(operations[..i])
      requires performanceData == base + Recorded(results)
      modifies this
      ensures extended == SuiteEntries(operations[..i + 1])
      ensures performanceData == base + Recorded(extended)
    {
      var result := RunOperation(operations[i]);
      extended := results + [result];
      ghost var added := if result.TimingReport? then [result] else [];
      assert extended == SuiteEntries(operations[..i + 1]) by {
        SuiteEntriesStep(operations, i);
      }
      assert base + Recorded(extended) == performanceData + added by {
        RecordedStep(results, result);
        assert base + (Recorded(results) + added) == base + Recorded(results) + added;
      }
      if result.TimingReport? {
        performanceData := performanceData + [result];
      }
    }

    /** One pass of the suite's loop: the benchmark result, with the
        suggestions added when the run succeeded. */
    method RunOperation(op: Operation) returns (result: Report)
      ensures result == SuiteEntry(op)
    {
      result := BenchmarkReport(op);
      if !result.ErrorReport? {
        var suggestions := AnalyzeOperation(op.operation, op.query);
        result := result.(optimizations := Some(suggestions));
      }
    }
  }

  // ---------------------------------------------------------------------------
  // Properties of the advice

  /** Each kind is recognised by exactly its upper-case name, and every other
      name is an operation the rules do not know. */
  lemma KindNames(op: string)
    ensures KindOf(op) == Create <==> op == "CREATE"
    ensures KindOf(op) == Insert <==> op == "INSERT"
    ensures KindOf(op) == Select <==> op == "SELECT"
    ensures KindOf(op) == Update <==> op == "UPDATE"
    ensures KindOf(op) == Delete <==> op == "DELETE"
    ensures KindOf(op) == Alter <==> op == "ALTER"
    ensures KindOf(op) == OtherOperation <==> op !in {"CREATE", "INSERT", "SELECT", "UPDATE", "DELETE", "ALTER"}
  {
  }

  /** The rule table, kind by kind: `CREATE` always gets the data-type advice,
      and the index advice unless the query mentions `index`; `INSERT` gets its
      two suggestions; `SELECT` gets the where, join and `*` advice, each when
      its text occurs, in that order; `UPDATE` and `DELETE` get the where advice
      when `where` occurs, then the batching advice; `ALTER` gets one
      suggestion; any other operation gets none. */
  lemma AdviceRules(k: OperationKind, q: string)
    ensures var a := Rules(k, q);
      && (k == Create ==> a == (if Contains(q, "index") then [DataTypes] else [DataTypes, IndexAfterCreate]))
      && (k == Insert ==> a == [BulkInsert, DisableIndexes])
      && (k == Select ==>
            && (WhereIndex in a <==> Contains(q, "where"))
            && (JoinIndex in a <==> Contains(q, "join"))
            && (NoStar in a <==> Contains(q, "*"))
            && a == When(Contains(q, "where"), WhereIndex) + When(Contains(q, "join"), JoinIndex) + When(Contains(q, "*"), NoStar))
      && (k == Update || k == Delete ==>
            a == (if Contains(q, "where") then [WhereIndex, Batching] else [Batching]))
      && (k == Alter ==> a == [AlterWindows])
      && (k == OtherOperation ==> a == [])
  {
    var a := Rules(k, q);
    match k
    case Create => assert a == CreateRule(k, q);
    case Insert => assert a == InsertRule(k);
    case Select =>
      assert a == SelectRule(k, q);
      SelectShape(Contains(q, "where"), Contains(q, "join"), Contains(q, "*"));
    case Update => assert a == UpdateDeleteRule(k, q);
    case Delete => assert a == UpdateDeleteRule(k, q);
    case Alter => assert a == AlterRule(k);
    case OtherOperation => assert a == [];
  }

  /** The `CREATE` rule: two different suggestions at most, no batching. */
  lemma CreateShape(indexed: bool)
    ensures var a := [DataTypes] + When(!indexed, IndexAfterCreate);
      && |a| <= 2
      && (forall i, k :: 0 <= i < k < |a| ==> a[i] != a[k])
      && Batching !in a
  {
  }

  /** The `UPDATE`/`DELETE` rule: two different suggestions at most, batching
      among them. */
  lemma UpdateShape(w: bool)
    ensures var a := When(w, WhereIndex) + [Batching];
      && |a| <= 2
      && (forall i, k :: 0 <= i < k < |a| ==> a[i] != a[k])
      && Batching in a
  {
  }

  /** The `SELECT` rule's three independent checks give three different
      suggestions, each present exactly when its check holds. */
  lemma SelectShape(w: bool, j: bool, star: bool)
    ensures var a := When(w, WhereIndex) + When(j, JoinIndex) + When(star, NoStar);
      && |a| <= 3
      && (forall i, k :: 0 <= i < k < |a| ==> a[i] != a[k])
      && (WhereIndex in a <==> w) && (JoinIndex in a <==> j) && (NoStar in a <==> star)
      && Batching !in a
  {
  }

  /** No suggestion is given twice, there are at most three, and the batching
      advice is given exactly to `UPDATE` and `DELETE`. */
  lemma AdviceDistinct(k: OperationKind, q: string)
    ensures var a := Rules(k, q);
      && |a| <= 3
      && (forall i, j :: 0 <= i < j < |a| ==> a[i] != a[j])
      && (Batching in a <==> k == Update || k == Delete)
  {
    var a := Rules(k, q);
    match k
    case Create =>
      assert a == CreateRule(k, q);
      CreateShape(Contains(q, "index"));
    case Insert => assert a == InsertRule(k);
    case Select =>
      assert a == SelectRule(k, q);
      SelectShape(Contains(q, "where"), Contains(q, "join"), Contains(q, "*"));
    case Update =>
      assert a == UpdateDeleteRule(k, q);
      UpdateShape(Contains(q, "where"));
    case Delete =>
      assert a == UpdateDeleteRule(k, q);
      UpdateShape(Contains(q, "where"));
    case Alter => assert a == AlterRule(k);
    case OtherOperation => assert a == [];
  }

  lemma {:induction false} UpperOfLower(s: string)
    ensures UpperStr(LowerStr(s)) == UpperStr(s)
  {
    assert forall i :: 0 <= i < |s| ==> Upper(Lower(s[i])) == Upper(s[i]);
  }

  lemma {:induction false} LowerOfUpper(s: string)
    ensures LowerStr(UpperStr(s)) == LowerStr(s)
  {
    assert forall i :: 0 <= i < |s| ==> Lower(Upper(s[i])) == Lower(s[i]);
  }

  /** The advice ignores the case of the operation and of the query. */
  lemma AdviceIgnoresCase(operation: string, query: string)
    ensures Advice(LowerStr(operation), query) == Advice(operation, query)
    ensures Advice(operation, UpperStr(query)) == Advice(operation, query)
  {
    UpperOfLower(operation);
    LowerOfUpper(query);
  }

  // ---------------------------------------------------------------------------
  // Properties of the suite

  /** An entry carries suggestions exactly when its run succeeded; then its
      operation is upper-cased and its suggestions are the advice for the
      operation and query. A failed run reports the error with the operation as
      given. */
  lemma SuiteEntryShape(op: Operation)
    ensures var r := SuiteEntry(op);
      && (r.TimingReport? <==> op.outcome.Success?)
      && (r.ErrorReport? ==> r == ErrorReport(op.outcome.error, op.operation, op.query))
      && (r.TimingReport? ==>
            r == TimingReport(UpperStr(op.operation), op.query, op.outcome.value, Some(Advice(op.operation, op.query))))
  {
  }

  /** What the suite reports for one run: a failed run gives its error with the
      operation as given; a successful run gives its timings under the
      upper-cased operation, with the advice for the operation and its query. */
  predicate SuiteReports(op: Operation, r: Report) {
    match op.outcome
    case Failure(e) => r == ErrorReport(e, op.operation, op.query)
    case Success(m) => r == TimingReport(UpperStr(op.operation), op.query, m, Some(Advice(op.operation, op.query)))
  }

  /** The suite reports every operation in order, each as `SuiteReports` says. */
  lemma {:induction false} SuiteReportsEachRun(operations: seq<Operation>)
    ensures |SuiteEntries(operations)| == |operations|
    ensures forall i :: 0 <= i < |operations| ==> SuiteReports(operations[i], SuiteEntries(operations)[i])
  {
    SuiteEntriesExact(operations);
    forall i | 0 <= i < |operations|
      ensures SuiteReports(operations[i], SuiteEntries(operations)[i])
    {
      SuiteEntryShape(operations[i]);
    }
  }

  lemma SuiteEntriesStep(ops: seq<Operation>, i: nat)
    requires i < |ops|
    ensures SuiteEntries(ops[..i + 1]) == SuiteEntries(ops[..i]) + [SuiteEntry(ops[i])]
  {
    assert ops[..i + 1][..i] == ops[..i];
  }

  lemma RecordedStep(results: seq<Report>, r: Report)
    ensures Recorded(results + [r]) == Recorded(results) + if r.TimingReport? then [r] else []
  {
    assert (results + [r])[..|results|] == results;
  }

  /** The suite gives one result per operation, in order, each the operation's
      own entry. */
  lemma {:induction false} SuiteEntriesExact(ops: seq<Operation>)
    ensures |SuiteEntries(ops)| == |ops|
    ensures forall i :: 0 <= i < |ops| ==> SuiteEntries(ops)[i] == SuiteEntry(ops[i])
  {
    if ops != [] {
      SuiteEntriesExact(ops[..|ops| - 1]);
    }
  }

  /** `performance_data` receives exactly the error-free results, and nothing
      else. */
  lemma {:induction false} RecordedExact(results: seq<Report>)
    ensures forall r :: r in Recorded(results) <==> r in results && r.TimingReport?
  {
    if results != [] {
      var p := results[..|results| - 1];
      RecordedExact(p);
      assert results == p + [results[|results| - 1]];
    }
  }

  /** When every run succeeded, `performance_data` receives all results, in
      order. */
  lemma {:induction false} RecordedAll(results: seq<Report>)
    requires forall k :: 0 <= k < |results| ==> results[k].TimingReport?
    ensures Recorded(results) == results
  {
    if results != [] {
      var p := results[..|results| - 1];
      RecordedAll(p);
      assert results == p + [results[|results| - 1]];
    }
  }

  /** After a suite, every result appended to `performance_data` succeeded and
      carries the advice for the operation it came from. */
  lemma SuiteRecordsAnalysedRuns(operations: seq<Operation>)
    ensures forall r :: r in Recorded(SuiteEntries(operations)) ==>
      && r.TimingReport?
      && r.optimizations.Some?
      && exists i :: (0 <= i < |operations| && operations[i].outcome.Success? &&
           r.optimizations.value == Advice(operations[i].operation, operations[i].query))
  {
    var results := SuiteEntries(operations);
    SuiteEntriesExact(operations);
    RecordedExact(results);
    forall r | r in Recorded(results)
      ensures r.TimingReport? && r.optimizations.Some?
      ensures exists i :: (0 <= i < |operations| && operations[i].outcome.Success? &&
        r.optimizations.value == Advice(operations[i].operation, operations[i].query))
    {
      var i :| 0 <= i < |results| && results[i] == r;
      SuiteEntryShape(operations[i]);
    }
  }
}
