/** The queued job that analyses one submitted review: each attempt marks
    the review `processing`, asks the service for an analysis and, inside a
    transaction, writes the counters and one issue row per reported issue;
    an exception marks the review `failed` and is rethrown so the queue
    retries, at most `Tries` attempts in all, after which `failed()` writes
    the permanent failure text. */
module AnalysisJob {
  import opened Wrappers
  import opened Json
  import opened Schema
  import opened ReviewStore
  import opened ClaudeAIService

  /** `$tries`: the queue runs `handle` at most this many times. */
  const Tries := 3

  const FailedPrefix := "Analysis failed: "
  const PermanentFailureText := "Analysis failed after multiple retries. Please try again."

  /** The message of the database error raised when a severity outside the
      `high`/`medium`/`low` enum is inserted. Its exact wording belongs to
      the database driver; this model only needs it to be an exception. */
  const SeverityRejectedMessage := "Data truncated for column 'severity'"

  /** The message of the exception raised when an insert is given an array
      value; as above, only its being an exception matters. */
  const UnbindableMessage := "Array to string conversion"

  /** How one run of `handle` ends: it returns, or it throws `failure`. */
  datatype Outcome = Finished | Threw(failure: Failure)

  /** The column writes `handle` and `failed` make on the review. */
  datatype Patch = ToProcessing | ToCompleted(analysis: Analysis) | ToFailed(text: string)

  function Patched(r: Review, p: Patch): (s: Review)
    ensures s.id == r.id
  {
    match p
    case ToProcessing => r.(status := Processing)
    case ToCompleted(a) =>
      r.(aiAnalysis := Some(a.summary), totalIssues := a.totalIssues, highSeverity := a.highSeverity,
         mediumSeverity := a.mediumSeverity, lowSeverity := a.lowSeverity,
         suggestionsCount := |a.issues|, status := Completed)
    case ToFailed(text) => r.(status := Status.Failed, aiAnalysis := Some(JStr(text)))
  }

  /** The review row with key `id`. */
  function Row(t: Tables, id: nat): Review
    requires HasReview(t, id)
  {
    t.reviews[ReviewIndex(t.reviews, id).value]
  }

  /** Every review row other than `id`'s is, at the same position, as it
      was in `before`. */
  predicate OthersKept(after: Tables, before: Tables, id: nat) {
    && |after.reviews| == |before.reviews|
    && forall j :: 0 <= j < |before.reviews| && before.reviews[j].id != id ==> after.reviews[j] == before.reviews[j]
  }

  /** `$this->codeReview->update([...])`: the review's row is patched and
      no other row changes. */
  function Amend(t: Tables, id: nat, p: Patch): (r: Tables)
    requires HasReview(t, id)
    ensures HasReview(r, id) && Row(r, id) == Patched(Row(t, id), p)
    ensures r.reviews == t.reviews[ReviewIndex(t.reviews, id).value := Row(r, id)]
    ensures OthersKept(r, t, id)
    ensures r.issues == t.issues && r.nextReviewId == t.nextReviewId && r.nextIssueId == t.nextIssueId
  {
    var i := ReviewIndex(t.reviews, id).value;
    var r := t.(reviews := t.reviews[i := Patched(t.reviews[i], p)]);
    ReviewIndexSameIds(t.reviews, r.reviews, id);
    r
  }

  // ---------------------------------------------------------------------
  // Issue rows

  /** What the database driver does with an insert value: a PHP array (a
      list or an associative array) is converted to text with an "Array to
      string conversion" warning, which the framework raises as an
      exception; every other value is bound. */
  predicate Bindable(v: Json) {
    !IsArray(v)
  }

  /** The free-form columns `CodeIssue::create` is given for one entry, with
      the defaults of the `??` operators, can all be bound. */
  predicate ColumnsBindable(entry: Json) {
    && Bindable(Field(entry, "line", JNum(0)))
    && Bindable(Field(entry, "type", JStr("General")))
    && Bindable(Field(entry, "message", JStr("")))
    && Bindable(Field(entry, "suggestion", JStr("")))
    && Bindable(Field(entry, "code_snippet", JNull))
  }

  predicate AllColumnsBindable(entries: seq<Json>) {
    forall i :: 0 <= i < |entries| ==> ColumnsBindable(entries[i])
  }

  /** The row `CodeIssue::create` is given for one reported issue, with the
      defaults of the `??` operators; the key is assigned on insert. The
      array built for `create` first lower-cases the severity (which may
      throw); binding then refuses an array value, and the database
      refuses a severity outside the enum. */
  function NewIssueRow(entry: Json, reviewId: nat): (r: Result<IssueRow, Failure>)
    ensures r.Ok? <==> Recognised(entry) && ColumnsBindable(entry)
    ensures r.Ok? ==>
      && r.value.codeReviewId == reviewId && SeverityText(entry) == Ok(SeverityWord(r.value.severity))
      && r.value.lineNumber == Field(entry, "line", JNum(0))
      && r.value.issueType == Field(entry, "type", JStr("General"))
      && r.value.message == Field(entry, "message", JStr(""))
      && r.value.suggestion == Field(entry, "suggestion", JStr(""))
      && r.value.codeSnippet == Field(entry, "code_snippet", JNull)
    ensures r.Err? && SeverityText(entry).Ok? ==>
      r.error == Exception(if ColumnsBindable(entry) then SeverityRejectedMessage else UnbindableMessage)
  {
    match SeverityText(entry)
    case Err(f) => Err(f)
    case Ok(word) =>
      if !ColumnsBindable(entry) then Err(Exception(UnbindableMessage))
      else
        match SeverityColumn(word)
        case None => Err(Exception(SeverityRejectedMessage))
        case Some(s) =>
          Ok(IssueRow(0, reviewId, Field(entry, "line", JNum(0)), s, Field(entry, "type", JStr("General")),
                      Field(entry, "message", JStr("")), Field(entry, "suggestion", JStr("")),
                      Field(entry, "code_snippet", JNull)))
  }

  /** An entry that reports nothing but its severity is stored with line 0,
      type `General`, an empty message and suggestion, and no snippet. */
  lemma MissingFieldsTakeDefaults(entry: Json, reviewId: nat, s: Severity)
    requires SeverityText(entry) == Ok(SeverityWord(s))
    requires !IsSet(entry, "line") && !IsSet(entry, "type") && !IsSet(entry, "message")
    requires !IsSet(entry, "suggestion") && !IsSet(entry, "code_snippet")
    ensures NewIssueRow(entry, reviewId)
      == Ok(IssueRow(0, reviewId, JNum(0), s, JStr("General"), JStr(""), JStr(""), JNull))
  {
    assert Recognised(entry) by {
      match s
      case High =>
      case Medium =>
      case Low =>
    }
  }

  /** The tables after inserting one row per entry, in order, or the first
      failure. */
  function InsertRows(t: Tables, id: nat, entries: seq<Json>): (r: Result<Tables, Failure>)
    ensures r.Ok? ==>
      && r.value.reviews == t.reviews && r.value.nextReviewId == t.nextReviewId
      && |r.value.issues| == |t.issues| + |entries| && r.value.issues[..|t.issues|] == t.issues
  {
    if entries == [] then Ok(t)
    else
      match InsertRows(t, id, entries[..|entries| - 1])
      case Err(f) => Err(f)
      case Ok(t') =>
        match NewIssueRow(entries[|entries| - 1], id)
        case Err(f) => Err(f)
        case Ok(row) =>
          var r := WithNewIssue(t', row);
          assert r.issues[..|t.issues|] == t'.issues[..|t.issues|];
          Ok(r)
  }

  /** The rows an insert added at the end of the issue table. */
  function Added(after: Tables, before: Tables): seq<IssueRow>
    requires |before.issues| <= |after.issues|
  {
    after.issues[|before.issues|..]
  }

  /** Once a prefix of the entries fails, the whole insert fails the same
      way: the loop stops at the first failure. */
  lemma {:induction false} InsertRowsFailureSticks(t: Tables, id: nat, entries: seq<Json>, k: nat)
    requires k <= |entries| && InsertRows(t, id, entries[..k]).Err?
    ensures InsertRows(t, id, entries) == InsertRows(t, id, entries[..k])
    decreases |entries| - k
  {
    if k < |entries| {
      assert entries[..k + 1][..k] == entries[..k];
      InsertRowsFailureSticks(t, id, entries, k + 1);
    } else {
      assert entries[..k] == entries;
    }
  }

  /** The insert of all entries succeeds when that of all but the last
      does and the last one's row is accepted. */
  lemma InsertRowsStep(t: Tables, id: nat, entries: seq<Json>)
    requires entries != []
    ensures InsertRows(t, id, entries).Ok? <==>
      && InsertRows(t, id, entries[..|entries| - 1]).Ok?
      && Recognised(entries[|entries| - 1]) && ColumnsBindable(entries[|entries| - 1])
  {
  }

  /** The insert succeeds exactly when every severity is one of the three
      enum words and no column is given an array. */
  lemma {:induction false} InsertRowsSucceedIff(t: Tables, id: nat, entries: seq<Json>)
    ensures InsertRows(t, id, entries).Ok? <==> AllRecognised(entries) && AllColumnsBindable(entries)
    decreases |entries|
  {
    if entries != [] {
      InsertRowsSucceedIff(t, id, entries[..|entries| - 1]);
      InsertRowsStep(t, id, entries);
      AllRecognisedSnoc(entries);
      AllColumnsBindableSnoc(entries);
    }
  }

  lemma AllColumnsBindableSnoc(entries: seq<Json>)
    requires entries != []
    ensures AllColumnsBindable(entries) <==>
      AllColumnsBindable(entries[..|entries| - 1]) && ColumnsBindable(entries[|entries| - 1])
  {
    var init := entries[..|entries| - 1];
    assert forall i :: 0 <= i < |init| ==> init[i] == entries[i];
  }

  /** A successful insert is the insert of all but the last entry
      followed by the row of the last one. */
  lemma InsertRowsLast(t: Tables, id: nat, entries: seq<Json>)
    requires entries != [] && InsertRows(t, id, entries).Ok?
    ensures var init := InsertRows(t, id, entries[..|entries| - 1]);
      var row := NewIssueRow(entries[|entries| - 1], id);
      && init.Ok? && row.Ok?
      && Added(InsertRows(t, id, entries).value, t)
         == Added(init.value, t) + [row.value.(id := init.value.nextIssueId)]
  {
    var t' := InsertRows(t, id, entries[..|entries| - 1]).value;
    var r := InsertRows(t, id, entries).value;
    assert r.issues == t'.issues + [NewIssueRow(entries[|entries| - 1], id).value.(id := t'.nextIssueId)];
  }

  /** The rows inserting `entries` for review `id` adds when the next
      issue key is `next`: row `i` is entry `i`'s row, keyed `next + i`. */
  function IssueRowsFor(entries: seq<Json>, id: nat, next: nat): (rows: seq<IssueRow>)
    requires AllRecognised(entries) && AllColumnsBindable(entries)
    ensures |rows| == |entries|
  {
    if entries == [] then []
    else
      AllRecognisedSnoc(entries);
      AllColumnsBindableSnoc(entries);
      IssueRowsFor(entries[..|entries| - 1], id, next)
        + [NewIssueRow(entries[|entries| - 1], id).value.(id := next + (|entries| - 1))]
  }

  /** Row `i` of `IssueRowsFor` is entry `i`'s row, keyed `next + i`. */
  lemma {:induction false} IssueRowsForAt(entries: seq<Json>, id: nat, next: nat, i: nat)
    requires AllRecognised(entries) && AllColumnsBindable(entries) && i < |entries|
    ensures NewIssueRow(entries[i], id).Ok?
    ensures IssueRowsFor(entries, id, next)[i] == NewIssueRow(entries[i], id).value.(id := next + i)
    decreases |entries|
  {
    var init := entries[..|entries| - 1];
    AllRecognisedSnoc(entries);
    AllColumnsBindableSnoc(entries);
    var key := next + (|entries| - 1);
    IssueRowsForSnoc(entries, id, next, key);
    var prev := IssueRowsFor(init, id, next);
    SnocAt(prev, NewIssueRow(entries[|entries| - 1], id).value.(id := key), i);
    if i < |init| {
      IssueRowsForAt(init, id, next, i);
      assert init[i] == entries[i];
    }
  }

  lemma {:induction false} SnocAt<T>(xs: seq<T>, x: T, i: nat)
    requires i <= |xs|
    ensures (xs + [x])[i] == if i < |xs| then xs[i] else x
  {
  }

  /** An insert of entries that are all accepted appends exactly their
      rows and advances the issue key counter by their number. */
  lemma {:induction false} InsertRowsAppends(t: Tables, id: nat, entries: seq<Json>)
    requires AllRecognised(entries) && AllColumnsBindable(entries)
    ensures InsertRows(t, id, entries).Ok?
    ensures InsertRows(t, id, entries).value.issues == t.issues + IssueRowsFor(entries, id, t.nextIssueId)
    ensures InsertRows(t, id, entries).value.nextIssueId == t.nextIssueId + |entries|
    decreases |entries|
  {
    if entries == [] {
      assert t.issues + [] == t.issues;
    } else {
      AllRecognisedSnoc(entries);
      AllColumnsBindableSnoc(entries);
      InsertRowsAppends(t, id, entries[..|entries| - 1]);
      InsertRowsAppendsStep(t, id, entries);
    }
  }

  lemma {:induction false} InsertRowsAppendsStep(t: Tables, id: nat, entries: seq<Json>)
    requires entries != [] && AllRecognised(entries) && AllColumnsBindable(entries)
    requires AllRecognised(entries[..|entries| - 1]) && AllColumnsBindable(entries[..|entries| - 1])
    requires InsertRows(t, id, entries[..|entries| - 1]).Ok?
    requires InsertRows(t, id, entries[..|entries| - 1]).value.issues
      == t.issues + IssueRowsFor(entries[..|entries| - 1], id, t.nextIssueId)
    requires InsertRows(t, id, entries[..|entries| - 1]).value.nextIssueId == t.nextIssueId + (|entries| - 1)
    ensures InsertRows(t, id, entries).Ok?
    ensures InsertRows(t, id, entries).value.issues == t.issues + IssueRowsFor(entries, id, t.nextIssueId)
    ensures InsertRows(t, id, entries).value.nextIssueId == t.nextIssueId + |entries|
  {
    var t' := InsertRows(t, id, entries[..|entries| - 1]).value;
    InsertRowsUnfold(t, id, entries);
    AppendNextRow(t, t', id, entries);
  }

  /** The insert of all entries is that of all but the last followed by
      the last one's row. */
  lemma {:induction false} InsertRowsUnfold(t: Tables, id: nat, entries: seq<Json>)
    requires entries != [] && InsertRows(t, id, entries[..|entries| - 1]).Ok?
    requires NewIssueRow(entries[|entries| - 1], id).Ok?
    ensures InsertRows(t, id, entries)
      == Ok(WithNewIssue(InsertRows(t, id, entries[..|entries| - 1]).value, NewIssueRow(entries[|entries| - 1], id).value))
  {
  }

  /** Adding the last entry's row to tables holding the rows of the others
      gives the tables holding the rows of all of them. */
  lemma {:induction false} AppendNextRow(t: Tables, t': Tables, id: nat, entries: seq<Json>)
    requires entries != [] && AllRecognised(entries) && AllColumnsBindable(entries)
    requires AllRecognised(entries[..|entries| - 1]) && AllColumnsBindable(entries[..|entries| - 1])
    requires t'.issues == t.issues + IssueRowsFor(entries[..|entries| - 1], id, t.nextIssueId)
    requires t'.nextIssueId == t.nextIssueId + (|entries| - 1)
    ensures NewIssueRow(entries[|entries| - 1], id).Ok?
    ensures var r := WithNewIssue(t', NewIssueRow(entries[|entries| - 1], id).value);
      r.issues == t.issues + IssueRowsFor(entries, id, t.nextIssueId) && r.nextIssueId == t.nextIssueId + |entries|
  {
    IssueRowsForSnoc(entries, id, t.nextIssueId, t'.nextIssueId);
    var row := NewIssueRow(entries[|entries| - 1], id).value.(id := t'.nextIssueId);
    AppendOneRow(t.issues, t'.issues, IssueRowsFor(entries[..|entries| - 1], id, t.nextIssueId), row,
                 IssueRowsFor(entries, id, t.nextIssueId));
  }

  /** Appending one row after `prev` is appending `prev` and the row. */
  lemma {:induction false} AppendOneRow(base: seq<IssueRow>, before: seq<IssueRow>, prev: seq<IssueRow>, row: IssueRow, rows: seq<IssueRow>)
    requires before == base + prev && rows == prev + [row]
    ensures before + [row] == base + rows
  {
  }

  lemma {:induction false} IssueRowsForSnoc(entries: seq<Json>, id: nat, next: nat, key: nat)
    requires entries != [] && AllRecognised(entries) && AllColumnsBindable(entries)
    requires AllRecognised(entries[..|entries| - 1]) && AllColumnsBindable(entries[..|entries| - 1])
    requires key == next + (|entries| - 1)
    ensures NewIssueRow(entries[|entries| - 1], id).Ok?
    ensures IssueRowsFor(entries, id, next)
      == IssueRowsFor(entries[..|entries| - 1], id, next) + [NewIssueRow(entries[|entries| - 1], id).value.(id := key)]
  {
  }

  /** Every added row belongs to review `id`, and the rows per severity
      are the tally of the entries. */
  lemma InsertRowsCount(t: Tables, id: nat, entries: seq<Json>)
    requires InsertRows(t, id, entries).Ok?
    ensures var added := Added(InsertRows(t, id, entries).value, t);
      && IssuesOf(added, id) == added
      && CountSeverity(added, High) == Tally(entries, "high")
      && CountSeverity(added, Medium) == Tally(entries, "medium")
      && CountSeverity(added, Low) == Tally(entries, "low")
  {
    InsertRowsOwned(t, id, entries);
    InsertRowsBucket(t, id, entries, High);
    InsertRowsBucket(t, id, entries, Medium);
    InsertRowsBucket(t, id, entries, Low);
  }

  lemma {:induction false} InsertRowsOwned(t: Tables, id: nat, entries: seq<Json>)
    requires InsertRows(t, id, entries).Ok?
    ensures var added := Added(InsertRows(t, id, entries).value, t);
      IssuesOf(added, id) == added
    decreases |entries|
  {
    if entries != [] {
      var init := entries[..|entries| - 1];
      InsertRowsOwned(t, id, init);
      InsertRowsLast(t, id, entries);
      var prev := Added(InsertRows(t, id, init).value, t);
      var row := NewIssueRow(entries[|entries| - 1], id).value.(id := InsertRows(t, id, init).value.nextIssueId);
      IssuesOfAppend(prev, [row], id);
      assert IssuesOf([row], id) == [row] by { assert [row][..0] == []; }
    }
  }

  lemma {:induction false} InsertRowsBucket(t: Tables, id: nat, entries: seq<Json>, s: Severity)
    requires InsertRows(t, id, entries).Ok?
    ensures CountSeverity(Added(InsertRows(t, id, entries).value, t), s) == Tally(entries, SeverityWord(s))
    decreases |entries|
  {
    if entries != [] {
      var init := entries[..|entries| - 1];
      var last := entries[|entries| - 1];
      InsertRowsBucket(t, id, init, s);
      InsertRowsLast(t, id, entries);
      var prev := Added(InsertRows(t, id, init).value, t);
      var row := NewIssueRow(last, id).value.(id := InsertRows(t, id, init).value.nextIssueId);
      CountSeverityAppend(prev, [row], s);
      assert CountSeverity([row], s) == if row.severity == s then 1 else 0 by { assert [row][..0] == []; }
      assert SeverityText(last) == Ok(SeverityWord(row.severity));
      SeverityWordsDistinct(row.severity, s);
      assert Tally(entries, SeverityWord(s)) == Tally(init, SeverityWord(s)) + (if row.severity == s then 1 else 0);
    }
  }

  // ---------------------------------------------------------------------
  // One attempt and the retry loop

  /** The `catch (\Exception $e)` of `handle`: an exception marks the review
      failed with its message and is rethrown; a PHP `Error` is not caught,
      so the review keeps its status. */
  function Caught(t: Tables, id: nat, f: Failure): (Tables, Outcome)
    requires HasReview(t, id)
  {
    match f
    case Exception(m) => (Amend(t, id, ToFailed(FailedPrefix + m)), Threw(f))
    case Error(_) => (t, Threw(f))
  }

  /** One run of `handle` on review `id`, given what `analyzeCode`
      returned or threw (`Analyze` of the service's reply). The transaction
      either keeps the completed review and every issue row, or rolls back
      to the tables as they were after the `processing` update. */
  function Attempt(t: Tables, id: nat, analysis: Result<Analysis, Failure>): (r: (Tables, Outcome))
    requires HasReview(t, id)
    ensures HasReview(r.0, id) && OthersKept(r.0, t, id)
  {
    var t1 := Amend(t, id, ToProcessing);
    match analysis
    case Err(f) => Caught(t1, id, f)
    case Ok(a) =>
      var t2 := Amend(t1, id, ToCompleted(a));
      match InsertRows(t2, id, a.issues)
      case Ok(t3) =>
        assert ReviewIndex(t3.reviews, id) == ReviewIndex(t2.reviews, id);
        (t3, Finished)
      case Err(f) => Caught(t1, id, f)
  }

  /** The queue's handling of the job from attempt `k` on: a run that
      returns ends it; a run that throws is retried while attempts remain,
      and after the last one `failed()` writes the permanent failure text.
      `analyses[k - 1]` is what `analyzeCode` returns or throws on attempt `k`. */
  function RunFrom(t: Tables, id: nat, analyses: seq<Result<Analysis, Failure>>, k: nat): (r: Tables)
    requires 1 <= k <= Tries == |analyses| && HasReview(t, id)
    ensures HasReview(r, id) && OthersKept(r, t, id)
    decreases Tries - k
  {
    var step := Attempt(t, id, analyses[k - 1]);
    if step.1.Finished? then step.0
    else if k == Tries then Amend(step.0, id, ToFailed(PermanentFailureText))
    else RunFrom(step.0, id, analyses, k + 1)
  }

  // ---------------------------------------------------------------------
  // What an attempt and the whole job leave behind

  /** A run that returns leaves the review completed with the analysis'
      counters, and adds exactly `total_issues` rows for it whose
      severities match the counters, which therefore add up to the total. */
  lemma AttemptFinished(t: Tables, id: nat, analysis: Result<Analysis, Failure>)
    requires HasReview(t, id) && Attempt(t, id, analysis).1 == Finished
    ensures analysis.Ok?
    ensures var a := analysis.value;
      var r := Attempt(t, id, analysis).0;
      var row := Row(r, id);
      && row.status == Completed && row.aiAnalysis == Some(a.summary)
      && row.totalIssues == a.totalIssues && row.suggestionsCount == |a.issues|
      && row.highSeverity == a.highSeverity && row.mediumSeverity == a.mediumSeverity
      && row.lowSeverity == a.lowSeverity
      && |t.issues| <= |r.issues| && r.issues[..|t.issues|] == t.issues
  {
  }

  /** The rows a completed attempt adds all belong to the review, one per
      reported issue, and their severities are the review's counters, which
      therefore add up to the total. */
  lemma AttemptFinishedRows(t: Tables, id: nat, a: Analysis)
    requires HasReview(t, id) && Attempt(t, id, Ok(a)).1 == Finished
    requires a.totalIssues == |a.issues| && a.highSeverity == Tally(a.issues, "high")
    requires a.mediumSeverity == Tally(a.issues, "medium") && a.lowSeverity == Tally(a.issues, "low")
    ensures var r := Attempt(t, id, Ok(a)).0;
      && |t.issues| <= |r.issues|
      && var added := Added(r, t);
        && |added| == a.totalIssues && IssuesOf(added, id) == added
        && CountSeverity(added, High) == a.highSeverity
        && CountSeverity(added, Medium) == a.mediumSeverity
        && CountSeverity(added, Low) == a.lowSeverity
        && a.highSeverity + a.mediumSeverity + a.lowSeverity == a.totalIssues
  {
    var t2 := Amend(Amend(t, id, ToProcessing), id, ToCompleted(a));
    InsertRowsSucceedIff(t2, id, a.issues);
    InsertRowsCount(t2, id, a.issues);
    TallyPartition(a.issues);
  }

  /** A run whose analysis or insert throws an exception leaves the review
      `failed` with the message, and no new issue rows. */
  lemma AttemptException(t: Tables, id: nat, analysis: Result<Analysis, Failure>)
    requires HasReview(t, id) && Attempt(t, id, analysis).1.Threw?
    requires Attempt(t, id, analysis).1.failure.Exception?
    ensures var r := Attempt(t, id, analysis);
      && Row(r.0, id).status == Status.Failed
      && Row(r.0, id).aiAnalysis == Some(JStr(FailedPrefix + r.1.failure.message))
      && r.0.issues == t.issues
  {
  }

  /** A PHP `Error` escapes the `catch`: the review stays `processing` and
      no issue row is added. */
  lemma AttemptError(t: Tables, id: nat, analysis: Result<Analysis, Failure>)
    requires HasReview(t, id) && Attempt(t, id, analysis).1.Threw?
    requires Attempt(t, id, analysis).1.failure.Error?
    ensures var r := Attempt(t, id, analysis).0;
      Row(r, id).status == Processing && r.issues == t.issues
  {
  }

  /** A reported severity outside the enum, such as `critical`, rolls the
      whole transaction back: the attempt fails with the database's
      refusal, or with the binding failure of an earlier array column, and
      the review is `failed` as if nothing had been written. */
  lemma UnknownSeverityFailsAttempt(t: Tables, id: nat, a: Analysis, i: nat)
    requires HasReview(t, id) && AllSeveritiesText(a.issues)
    requires i < |a.issues| && !Recognised(a.issues[i])
    ensures var r := Attempt(t, id, Ok(a));
      && r.1.Threw? && r.1.failure in {Exception(SeverityRejectedMessage), Exception(UnbindableMessage)}
      && r.0 == Amend(Amend(t, id, ToProcessing), id, ToFailed(FailedPrefix + r.1.failure.message))
    ensures AllColumnsBindable(a.issues) ==> Attempt(t, id, Ok(a)).1 == Threw(Exception(SeverityRejectedMessage))
  {
    var t2 := Amend(Amend(t, id, ToProcessing), id, ToCompleted(a));
    InsertRowsSucceedIff(t2, id, a.issues);
    InsertRowsRefused(t2, id, a.issues);
  }

  /** An issue with an array in one of its columns, such as a `message`
      that is a list, rolls the whole transaction back the same way. */
  lemma ArrayColumnFailsAttempt(t: Tables, id: nat, a: Analysis, i: nat)
    requires HasReview(t, id) && AllSeveritiesText(a.issues)
    requires i < |a.issues| && !ColumnsBindable(a.issues[i])
    ensures var r := Attempt(t, id, Ok(a));
      && r.1.Threw? && r.1.failure in {Exception(SeverityRejectedMessage), Exception(UnbindableMessage)}
      && r.0 == Amend(Amend(t, id, ToProcessing), id, ToFailed(FailedPrefix + r.1.failure.message))
    ensures AllRecognised(a.issues) ==> Attempt(t, id, Ok(a)).1 == Threw(Exception(UnbindableMessage))
  {
    var t2 := Amend(Amend(t, id, ToProcessing), id, ToCompleted(a));
    InsertRowsSucceedIff(t2, id, a.issues);
    InsertRowsRefused(t2, id, a.issues);
  }

  /** After a successful analysis the insert loop fails only by the
      database refusing a row: its severity, or an array column; when
      only one of the two can happen, it is that one. */
  lemma {:induction false} InsertRowsRefused(t: Tables, id: nat, entries: seq<Json>)
    requires AllSeveritiesText(entries) && InsertRows(t, id, entries).Err?
    ensures InsertRows(t, id, entries).error in {Exception(SeverityRejectedMessage), Exception(UnbindableMessage)}
    ensures AllColumnsBindable(entries) ==> InsertRows(t, id, entries).error == Exception(SeverityRejectedMessage)
    ensures AllRecognised(entries) ==> InsertRows(t, id, entries).error == Exception(UnbindableMessage)
    decreases |entries|
  {
    var init := entries[..|entries| - 1];
    assert forall i :: 0 <= i < |init| ==> init[i] == entries[i];
    if InsertRows(t, id, init).Err? {
      InsertRowsRefused(t, id, init);
    } else {
      assert SeverityText(entries[|entries| - 1]).Ok?;
    }
  }

  /** One step of the retry loop, stated outright. */
  lemma RunFromStep(t: Tables, id: nat, analyses: seq<Result<Analysis, Failure>>, k: nat)
    requires 1 <= k <= Tries == |analyses| && HasReview(t, id)
    ensures var step := Attempt(t, id, analyses[k - 1]);
      RunFrom(t, id, analyses, k) ==
        if step.1.Finished? then step.0
        else if k == Tries then Amend(step.0, id, ToFailed(PermanentFailureText))
        else RunFrom(step.0, id, analyses, k + 1)
  {
  }

  /** How one attempt's result decides the rest of the run: a run that
      returns ends it, a throw on the last attempt leads to `failed()`,
      any other throw to the next attempt. */
  lemma RunStep(before: Tables, after: Tables, o: Outcome, id: nat,
                analyses: seq<Result<Analysis, Failure>>, k: nat)
    requires 1 <= k <= Tries == |analyses| && HasReview(before, id)
    requires (after, o) == Attempt(before, id, analyses[k - 1])
    ensures HasReview(after, id)
    ensures o.Finished? ==> RunFrom(before, id, analyses, k) == after
    ensures !o.Finished? && k == Tries ==>
      RunFrom(before, id, analyses, k) == Amend(after, id, ToFailed(PermanentFailureText))
    ensures !o.Finished? && k < Tries ==> RunFrom(before, id, analyses, k) == RunFrom(after, id, analyses, k + 1)
  {
    RunFromStep(before, id, analyses, k);
  }

  /** An attempt either completes the review or leaves the issue table as
      it found it. */
  lemma AttemptSettles(t: Tables, id: nat, analysis: Result<Analysis, Failure>)
    requires HasReview(t, id)
    ensures var r := Attempt(t, id, analysis);
      if r.1.Finished? then Row(r.0, id).status == Completed else r.0.issues == t.issues
  {
    var r := Attempt(t, id, analysis);
    if r.1.Finished? {
      AttemptFinished(t, id, analysis);
    } else if r.1.failure.Exception? {
      AttemptException(t, id, analysis);
    } else {
      AttemptError(t, id, analysis);
    }
  }

  /** The review is completed, or failed with the permanent failure text
      and the issue table is as in `before`. */
  predicate Settled(r: Tables, before: Tables, id: nat)
    requires HasReview(r, id)
  {
    || Row(r, id).status == Completed
    || (&& Row(r, id).status == Status.Failed
        && Row(r, id).aiAnalysis == Some(JStr(PermanentFailureText))
        && r.issues == before.issues)
  }

  /** Whatever the replies, the job ends with the review either completed
      or failed with the permanent failure text; in the second case the
      issue table is as it was before the first attempt. */
  lemma {:induction false} RunSettles(t: Tables, id: nat, analyses: seq<Result<Analysis, Failure>>, k: nat)
    requires 1 <= k <= Tries == |analyses| && HasReview(t, id)
    ensures Settled(RunFrom(t, id, analyses, k), t, id)
    decreases Tries - k
  {
    var step := Attempt(t, id, analyses[k - 1]);
    AttemptSettles(t, id, analyses[k - 1]);
    RunFromStep(t, id, analyses, k);
    if step.1.Finished? {
    } else if k == Tries {
      var r := Amend(step.0, id, ToFailed(PermanentFailureText));
      assert Row(r, id) == Patched(Row(step.0, id), ToFailed(PermanentFailureText));
    } else {
      RunSettles(step.0, id, analyses, k + 1);
    }
  }


  /** An analysis the job can store: `analyzeCode` returned, every
      severity is one of the enum words and no column is given an array. */
  predicate Storable(analysis: Result<Analysis, Failure>) {
    analysis.Ok? && AllRecognised(analysis.value.issues) && AllColumnsBindable(analysis.value.issues)
  }

  /** Completing a review overwrites every column that marking it
      `processing` or `failed` writes. */
  lemma CompletedOverrides(row: Review, p: Patch, a: Analysis)
    ensures Patched(Patched(row, p), ToCompleted(a)) == Patched(row, ToCompleted(a))
  {
  }

  /** Failing a review overwrites what marking it `processing` or
      `failed` wrote before. */
  lemma FailedOverrides(row: Review, p: Patch, text: string)
    requires !p.ToCompleted?
    ensures Patched(Patched(row, p), ToFailed(text)) == Patched(row, ToFailed(text))
  {
  }

  /** An attempt on a storable analysis returns: the review is completed
      with it, as if never marked `processing`, and its rows are appended. */
  lemma AttemptStores(t: Tables, id: nat, analysis: Result<Analysis, Failure>)
    requires HasReview(t, id) && Storable(analysis)
    ensures var r := Attempt(t, id, analysis); var a := analysis.value;
      && r.1 == Finished
      && Row(r.0, id) == Patched(Row(t, id), ToCompleted(a))
      && r.0.issues == t.issues + IssueRowsFor(a.issues, id, t.nextIssueId)
      && r.0.nextIssueId == t.nextIssueId + |a.issues|
  {
    var a := analysis.value;
    var t1 := Amend(t, id, ToProcessing);
    var t2 := Amend(t1, id, ToCompleted(a));
    InsertRowsAppends(t2, id, a.issues);
    var t3 := InsertRows(t2, id, a.issues).value;
    assert ReviewIndex(t3.reviews, id) == ReviewIndex(t2.reviews, id);
    CompletedOverrides(Row(t, id), ToProcessing, a);
  }

  /** An attempt on any other analysis throws, and the transaction leaves
      the issue table and its key counter as they were; the review is
      `failed` after an exception and still `processing` after an error. */
  lemma AttemptRefuses(t: Tables, id: nat, analysis: Result<Analysis, Failure>)
    requires HasReview(t, id) && !Storable(analysis)
    ensures var r := Attempt(t, id, analysis);
      && r.1.Threw?
      && Row(r.0, id) == (if r.1.failure.Exception?
                          then Patched(Row(t, id), ToFailed(FailedPrefix + r.1.failure.message))
                          else Patched(Row(t, id), ToProcessing))
      && r.0.issues == t.issues && r.0.nextIssueId == t.nextIssueId
  {
    if analysis.Ok? {
      var a := analysis.value;
      var t2 := Amend(Amend(t, id, ToProcessing), id, ToCompleted(a));
      InsertRowsSucceedIff(t2, id, a.issues);
    }
    var r := Attempt(t, id, analysis);
    if r.1.failure.Exception? {
      FailedOverrides(Row(t, id), ToProcessing, FailedPrefix + r.1.failure.message);
    }
  }

  /** With no storable analysis from attempt `k` on, every attempt is used
      and the job ends with the review `failed` with the permanent text, as
      if the earlier attempts had not touched it, and with the issue table
      and its key counter as they were. */
  lemma {:induction false} RunExhausted(t: Tables, id: nat, analyses: seq<Result<Analysis, Failure>>, k: nat)
    requires 1 <= k <= Tries == |analyses| && HasReview(t, id)
    requires forall i :: k - 1 <= i < Tries ==> !Storable(analyses[i])
    ensures var r := RunFrom(t, id, analyses, k);
      && Row(r, id) == Patched(Row(t, id), ToFailed(PermanentFailureText))
      && r.issues == t.issues && r.nextIssueId == t.nextIssueId
    decreases Tries - k
  {
    var step := Attempt(t, id, analyses[k - 1]);
    AttemptRefuses(t, id, analyses[k - 1]);
    RunFromStep(t, id, analyses, k);
    var p := if step.1.failure.Exception? then ToFailed(FailedPrefix + step.1.failure.message) else ToProcessing;
    assert Row(step.0, id) == Patched(Row(t, id), p);
    if k == Tries {
      FailedOverrides(Row(t, id), p, PermanentFailureText);
    } else {
      RunExhausted(step.0, id, analyses, k + 1);
      FailedOverrides(Row(t, id), p, PermanentFailureText);
    }
  }

  /** The first storable analysis, on attempt `i + 1`, ends the job: the
      review is completed with that analysis alone and exactly its rows
      are added, the failed attempts before it leaving no trace. */
  lemma {:induction false} RunStoresFirst(t: Tables, id: nat, analyses: seq<Result<Analysis, Failure>>, k: nat, i: nat)
    requires 1 <= k <= Tries == |analyses| && HasReview(t, id)
    requires k - 1 <= i < Tries && Storable(analyses[i])
    requires forall m :: k - 1 <= m < i ==> !Storable(analyses[m])
    ensures var r := RunFrom(t, id, analyses, k); var a := analyses[i].value;
      && Row(r, id) == Patched(Row(t, id), ToCompleted(a))
      && r.issues == t.issues + IssueRowsFor(a.issues, id, t.nextIssueId)
      && r.nextIssueId == t.nextIssueId + |a.issues|
    decreases Tries - k
  {
    var step := Attempt(t, id, analyses[k - 1]);
    RunFromStep(t, id, analyses, k);
    if i == k - 1 {
      AttemptStores(t, id, analyses[k - 1]);
    } else {
      AttemptRefuses(t, id, analyses[k - 1]);
      var p := if step.1.failure.Exception? then ToFailed(FailedPrefix + step.1.failure.message) else ToProcessing;
      assert Row(step.0, id) == Patched(Row(t, id), p);
      RunStoresFirst(step.0, id, analyses, k + 1, i);
      CompletedOverrides(Row(t, id), p, analyses[i].value);
    }
  }

  /** The job completes the review exactly when one of the remaining
      attempts gets a storable analysis; so a throw is retried until the
      third attempt. */
  lemma {:induction false} RunCompletesIff(t: Tables, id: nat, analyses: seq<Result<Analysis, Failure>>, k: nat)
    requires 1 <= k <= Tries == |analyses| && HasReview(t, id)
    ensures Row(RunFrom(t, id, analyses, k), id).status == Completed
      <==> exists i :: k - 1 <= i < Tries && Storable(analyses[i])
    decreases Tries - k
  {
    SomeStorableStep(analyses, k);
    if Storable(analyses[k - 1]) {
      RunStoresFirst(t, id, analyses, k, k - 1);
    } else if k == Tries {
      RunExhausted(t, id, analyses, k);
    } else {
      var step := Attempt(t, id, analyses[k - 1]);
      AttemptRefuses(t, id, analyses[k - 1]);
      RunStep(t, step.0, step.1, id, analyses, k);
      RunCompletesIff(step.0, id, analyses, k + 1);
    }
  }

  lemma {:induction false} SomeStorableStep(analyses: seq<Result<Analysis, Failure>>, k: nat)
    requires 1 <= k <= Tries == |analyses|
    ensures (exists i :: k - 1 <= i < Tries && Storable(analyses[i]))
      <==> Storable(analyses[k - 1]) || (k < Tries && exists i :: k <= i < Tries && Storable(analyses[i]))
  {
  }

  // ---------------------------------------------------------------------
  // The job and the queue worker

  /** Apply `p` to the review `id` through the store. */
  method AmendReview(db: Database, id: nat, p: Patch)
    requires db.Valid() && HasReview(db.Snapshot(), id)
    modifies db
    ensures db.Valid() && db.Snapshot() == Amend(old(db.Snapshot()), id, p)
  {
    var i := ReviewIndex(db.reviews, id).value;
    db.UpdateReview(i, Patched(db.reviews[i], p));
  }

  /** The `foreach` that creates one issue row per entry. It stops at the
      first row the database refuses and reports that failure. */
  method StoreIssues(db: Database, id: nat, entries: seq<Json>) returns (failure: Option<Failure>)
    requires db.Valid() && HasReview(db.Snapshot(), id)
    modifies db
    ensures db.Valid()
    ensures match InsertRows(old(db.Snapshot()), id, entries)
      case Ok(t) => failure.None? && db.Snapshot() == t
      case Err(f) => failure == Some(f)
  {
    ghost var t0 := db.Snapshot();
    var k := 0;
    while k < |entries|
      invariant k <= |entries|
      invariant db.Valid() && HasReview(db.Snapshot(), id)
      invariant InsertRows(t0, id, entries[..k]) == Ok(db.Snapshot())
    {
      assert entries[..k + 1][..k] == entries[..k];
      var row := NewIssueRow(entries[k], id);
      if row.Err? {
        InsertRowsFailureSticks(t0, id, entries, k + 1);
        return Some(row.error);
      }
      var _ := db.CreateIssue(row.value);
      k := k + 1;
    }
    assert entries[..k] == entries;
    return None;
  }

  class AnalyzeCodeJob {
    /** The review the job was dispatched for. */
    const reviewId: nat

    constructor (reviewId: nat)
      ensures this.reviewId == reviewId
    {
      this.reviewId := reviewId;
    }

    /** The `catch` block of `handle`. */
    method Catch(db: Database, f: Failure) returns (o: Outcome)
      requires db.Valid() && HasReview(db.Snapshot(), reviewId)
      modifies db
      ensures db.Valid() && (db.Snapshot(), o) == Caught(old(db.Snapshot()), reviewId, f)
    {
      if f.Exception? {
        AmendReview(db, reviewId, ToFailed(FailedPrefix + f.message));
      }
      o := Threw(f);
    }

    /** `handle`: one attempt. */
    method Handle(db: Database, reply: Reply, decode: string -> Option<Json>) returns (o: Outcome)
      requires db.Valid() && HasReview(db.Snapshot(), reviewId)
      modifies db
      ensures db.Valid() && (db.Snapshot(), o) == Attempt(old(db.Snapshot()), reviewId, Analyze(reply, decode))
    {
      AmendReview(db, reviewId, ToProcessing);
      var analysis := AnalyzeCode(reply, decode);
      if analysis.Err? {
        o := Catch(db, analysis.error);
        return;
      }
      var saved := db.Snapshot();
      AmendReview(db, reviewId, ToCompleted(analysis.value));
      var failure := StoreIssues(db, reviewId, analysis.value.issues);
      if failure.Some? {
        db.Restore(saved);
        o := Catch(db, failure.value);
      } else {
        o := Finished;
      }
    }

    /** `failed()`: called once the last attempt has thrown. */
    method Failed(db: Database)
      requires db.Valid() && HasReview(db.Snapshot(), reviewId)
      modifies db
      ensures db.Valid() && db.Snapshot() == Amend(old(db.Snapshot()), reviewId, ToFailed(PermanentFailureText))
    {
      AmendReview(db, reviewId, ToFailed(PermanentFailureText));
    }
  }

  /** What `analyzeCode` returns or throws on each attempt, given the reply
      the service receives on that attempt. */
  function Analyses(replies: seq<Reply>, decode: string -> Option<Json>): (r: seq<Result<Analysis, Failure>>)
    ensures |r| == |replies| && forall i :: 0 <= i < |r| ==> r[i] == Analyze(replies[i], decode)
  {
    if replies == [] then [] else Analyses(replies[..|replies| - 1], decode) + [Analyze(replies[|replies| - 1], decode)]
  }

  /** One delivery of the job, attempt `k`: run `handle`, and when it throws
      on the last attempt, call `failed()`. `done` says the job is over;
      otherwise the run continues from attempt `k + 1`. */
  method Deliver(db: Database, job: AnalyzeCodeJob, replies: seq<Reply>, decode: string -> Option<Json>, k: nat)
    returns (done: bool)
    requires 1 <= k <= Tries == |replies| && db.Valid() && HasReview(db.Snapshot(), job.reviewId)
    modifies db
    ensures db.Valid() && HasReview(db.Snapshot(), job.reviewId)
    ensures done || k < Tries
    ensures RunFrom(old(db.Snapshot()), job.reviewId, Analyses(replies, decode), k)
      == if done then db.Snapshot() else RunFrom(db.Snapshot(), job.reviewId, Analyses(replies, decode), k + 1)
  {
    ghost var before := db.Snapshot();
    var o := job.Handle(db, replies[k - 1], decode);
    RunStep(before, db.Snapshot(), o, job.reviewId, Analyses(replies, decode), k);
    if o.Finished? {
      done := true;
    } else if k == Tries {
      job.Failed(db);
      done := true;
    } else {
      done := false;
    }
  }

  /** The queue worker: deliver the job until an attempt returns or the
      attempts are used up. `replies[k - 1]` is the reply the service
      receives on attempt `k`. Returns the number of the attempt that
      ended the job. */
  method RunQueuedJob(db: Database, job: AnalyzeCodeJob, replies: seq<Reply>, decode: string -> Option<Json>)
    returns (attempts: nat)
    requires |replies| == Tries && db.Valid() && HasReview(db.Snapshot(), job.reviewId)
    modifies db
    ensures 1 <= attempts <= Tries
    ensures db.Valid() && db.Snapshot() == RunFrom(old(db.Snapshot()), job.reviewId, Analyses(replies, decode), 1)
  {
    attempts := 1;
    while true
      invariant 1 <= attempts <= Tries
      invariant db.Valid() && HasReview(db.Snapshot(), job.reviewId)
      invariant RunFrom(db.Snapshot(), job.reviewId, Analyses(replies, decode), attempts)
        == RunFrom(old(db.Snapshot()), job.reviewId, Analyses(replies, decode), 1)
      decreases Tries - attempts
    {
      var done := Deliver(db, job, replies, decode, attempts);
      if done {
        return;
      }
      attempts := attempts + 1;
    }
  }
}
