/** The two tables of the backend, `code_reviews` and `code_issues`, with
    the enum columns, the zero defaults and the foreign key of their
    migrations. */
module Schema {
  import opened Wrappers
  import opened Json

  /** The `status` enum of `code_reviews`. */
  datatype Status = Pending | Processing | Completed | Failed

  /** The `severity` enum of `code_issues`. */
  datatype Severity = High | Medium | Low

  function SeverityWord(s: Severity): string {
    match s
    case High => "high"
    case Medium => "medium"
    case Low => "low"
  }

  /** The three enum words are different, so a word names one severity. */
  lemma SeverityWordsDistinct(s: Severity, u: Severity)
    ensures SeverityWord(s) == SeverityWord(u) <==> s == u
  {
    assert |SeverityWord(High)| == 4 && |SeverityWord(Medium)| == 6 && |SeverityWord(Low)| == 3;
  }

  /** What the enum column stores for a text: exactly the three words are
      accepted, anything else makes the insert fail. */
  function SeverityColumn(text: string): (r: Option<Severity>)
    ensures r.Some? ==> SeverityWord(r.value) == text
    ensures (forall s: Severity :: SeverityWord(s) != text) ==> r.None?
    ensures forall s: Severity :: text == SeverityWord(s) ==> r == Some(s)
  {
    if text == "high" then Some(High)
    else if text == "medium" then Some(Medium)
    else if text == "low" then Some(Low)
    else None
  }

  /** A `code_reviews` row. Timestamps are reduced to `createdAt`, which is
      what the listing orders by. */
  datatype Review = Review(
    id: nat,
    userName: string,
    filename: string,
    language: string,
    originalCode: string,
    aiAnalysis: Option<Json>,
    totalIssues: nat,
    highSeverity: nat,
    mediumSeverity: nat,
    lowSeverity: nat,
    suggestionsCount: nat,
    status: Status,
    createdAt: int)

  /** A `code_issues` row. The free-form columns hold the decoded value the
      job wrote into them. */
  datatype IssueRow = IssueRow(
    id: nat,
    codeReviewId: nat,
    lineNumber: Json,
    severity: Severity,
    issueType: Json,
    message: Json,
    suggestion: Json,
    codeSnippet: Json)

  /** The contents of both tables and their auto-increment counters. */
  datatype Tables = Tables(reviews: seq<Review>, issues: seq<IssueRow>, nextReviewId: nat, nextIssueId: nat)

  /** Position of the review with primary key `id`, if any. */
  function ReviewIndex(reviews: seq<Review>, id: nat): (r: Option<nat>)
    ensures r.Some? ==> r.value < |reviews| && reviews[r.value].id == id
    ensures r.None? ==> forall i :: 0 <= i < |reviews| ==> reviews[i].id != id
  {
    if reviews == [] then None
    else if reviews[|reviews| - 1].id == id then Some(|reviews| - 1)
    else ReviewIndex(reviews[..|reviews| - 1], id)
  }

  predicate HasReview(t: Tables, id: nat) {
    ReviewIndex(t.reviews, id).Some?
  }

  /** Finding a row depends only on the keys, position by position. */
  lemma {:induction false} ReviewIndexSameIds(a: seq<Review>, b: seq<Review>, id: nat)
    requires |a| == |b| && forall j :: 0 <= j < |a| ==> a[j].id == b[j].id
    ensures ReviewIndex(a, id) == ReviewIndex(b, id)
    decreases |a|
  {
    if a != [] {
      ReviewIndexSameIds(a[..|a| - 1], b[..|b| - 1], id);
    }
  }

  /** The primary keys present in `code_reviews`. */
  ghost function ReviewIds(reviews: seq<Review>): set<nat> {
    set j | 0 <= j < |reviews| :: reviews[j].id
  }

  /** Two tables whose rows carry the same keys position by position have
      the same key set. */
  lemma SameIdsSameKeySet(a: seq<Review>, b: seq<Review>)
    requires |a| == |b| && forall j :: 0 <= j < |a| ==> a[j].id == b[j].id
    ensures ReviewIds(a) == ReviewIds(b)
  {
    assert forall x :: x in ReviewIds(a) ==> x in ReviewIds(b);
    assert forall x :: x in ReviewIds(b) ==> x in ReviewIds(a);
  }

  /** Primary keys are handed out in increasing order and are unique; every
      issue row references an existing review (the foreign key). */
  ghost predicate WellFormed(t: Tables) {
    && ReviewKeysOrdered(t.reviews, t.nextReviewId)
    && IssueKeysOrdered(t.issues, t.nextIssueId)
    && ForeignKeys(t.reviews, t.issues)
  }

  ghost predicate ReviewKeysOrdered(rows: seq<Review>, next: nat) {
    && (forall i, j :: 0 <= i < j < |rows| ==> rows[i].id < rows[j].id)
    && (forall i :: 0 <= i < |rows| ==> rows[i].id < next)
  }

  ghost predicate IssueKeysOrdered(rows: seq<IssueRow>, next: nat) {
    && (forall i, j :: 0 <= i < j < |rows| ==> rows[i].id < rows[j].id)
    && (forall i :: 0 <= i < |rows| ==> rows[i].id < next)
  }

  ghost predicate ForeignKeys(reviews: seq<Review>, issues: seq<IssueRow>) {
    forall k :: 0 <= k < |issues| ==> issues[k].codeReviewId in ReviewIds(reviews)
  }

  lemma HasReviewIffId(t: Tables, id: nat)
    ensures HasReview(t, id) <==> id in ReviewIds(t.reviews)
  {
    var r := ReviewIndex(t.reviews, id);
    if id in ReviewIds(t.reviews) {
      var j :| 0 <= j < |t.reviews| && t.reviews[j].id == id;
    }
  }

  /** The issue rows of one review, in table order (`$review->issues`). */
  function IssuesOf(rows: seq<IssueRow>, reviewId: nat): (r: seq<IssueRow>)
    ensures |r| <= |rows|
    ensures forall x :: x in r <==> x in rows && x.codeReviewId == reviewId
  {
    if rows == [] then []
    else
      var last := rows[|rows| - 1];
      IssuesOf(rows[..|rows| - 1], reviewId) + (if last.codeReviewId == reviewId then [last] else [])
  }

  /** The review rows left by `DELETE ... WHERE id = ?`, in table order. */
  function ReviewsWithout(rows: seq<Review>, id: nat): (r: seq<Review>)
    ensures |r| <= |rows|
    ensures forall x :: x in r <==> x in rows && x.id != id
  {
    if rows == [] then []
    else
      var last := rows[|rows| - 1];
      ReviewsWithout(rows[..|rows| - 1], id) + (if last.id != id then [last] else [])
  }

  /** Deleting rows keeps the remaining keys in increasing order. */
  lemma {:induction false} ReviewsWithoutOrdered(rows: seq<Review>, id: nat, next: nat)
    requires ReviewKeysOrdered(rows, next)
    ensures ReviewKeysOrdered(ReviewsWithout(rows, id), next)
    decreases |rows|
  {
    if rows != [] {
      var front := rows[..|rows| - 1];
      var last := rows[|rows| - 1];
      ReviewKeysOrderedFront(rows, next);
      ReviewsWithoutOrdered(front, id, last.id);
      ReviewKeysOrderedSnoc(ReviewsWithout(front, id), last, next);
    }
  }

  /** The rows before the last are ordered below the last key. */
  lemma ReviewKeysOrderedFront(rows: seq<Review>, next: nat)
    requires rows != [] && ReviewKeysOrdered(rows, next)
    ensures ReviewKeysOrdered(rows[..|rows| - 1], rows[|rows| - 1].id) && rows[|rows| - 1].id < next
  {
  }

  /** Appending a row with a larger key keeps the order. */
  lemma ReviewKeysOrderedSnoc(rows: seq<Review>, last: Review, next: nat)
    requires ReviewKeysOrdered(rows, last.id) && last.id < next
    ensures ReviewKeysOrdered(rows + [last], next) && ReviewKeysOrdered(rows, next)
  {
  }


  /** A table with no row of the review has no issues for it. */
  lemma {:induction false} IssuesOfAbsent(rows: seq<IssueRow>, reviewId: nat)
    requires forall k :: 0 <= k < |rows| ==> rows[k].codeReviewId != reviewId
    ensures IssuesOf(rows, reviewId) == []
    decreases |rows|
  {
    if rows != [] {
      IssuesOfAbsent(rows[..|rows| - 1], reviewId);
    }
  }

  /** The issue rows that do not belong to `reviewId`, in table order. */
  function IssuesNotOf(rows: seq<IssueRow>, reviewId: nat): (r: seq<IssueRow>)
    ensures |r| <= |rows|
    ensures forall x :: x in r <==> x in rows && x.codeReviewId != reviewId
  {
    if rows == [] then []
    else
      var last := rows[|rows| - 1];
      IssuesNotOf(rows[..|rows| - 1], reviewId) + (if last.codeReviewId != reviewId then [last] else [])
  }

  /** Deleting rows keeps the remaining keys in increasing order. */
  lemma {:induction false} IssuesNotOfOrdered(rows: seq<IssueRow>, reviewId: nat, next: nat)
    requires IssueKeysOrdered(rows, next)
    ensures IssueKeysOrdered(IssuesNotOf(rows, reviewId), next)
    decreases |rows|
  {
    if rows != [] {
      var front := rows[..|rows| - 1];
      var last := rows[|rows| - 1];
      IssueKeysOrderedFront(rows, next);
      IssuesNotOfOrdered(front, reviewId, last.id);
      IssueKeysOrderedSnoc(IssuesNotOf(front, reviewId), last, next);
    }
  }

  /** The rows before the last are ordered below the last key. */
  lemma IssueKeysOrderedFront(rows: seq<IssueRow>, next: nat)
    requires rows != [] && IssueKeysOrdered(rows, next)
    ensures IssueKeysOrdered(rows[..|rows| - 1], rows[|rows| - 1].id) && rows[|rows| - 1].id < next
  {
  }

  /** Appending a row with a larger key keeps the order. */
  lemma IssueKeysOrderedSnoc(rows: seq<IssueRow>, last: IssueRow, next: nat)
    requires IssueKeysOrdered(rows, last.id) && last.id < next
    ensures IssueKeysOrdered(rows + [last], next) && IssueKeysOrdered(rows, next)
  {
  }


  lemma {:induction false} IssuesOfAppend(a: seq<IssueRow>, b: seq<IssueRow>, reviewId: nat)
    ensures IssuesOf(a + b, reviewId) == IssuesOf(a, reviewId) + IssuesOf(b, reviewId)
    decreases |b|
  {
    if b == [] {
      assert a + b == a;
    } else {
      var b' := b[..|b| - 1];
      var tail := if b[|b| - 1].codeReviewId == reviewId then [b[|b| - 1]] else [];
      assert (a + b)[..|a + b| - 1] == a + b';
      assert (a + b)[|a + b| - 1] == b[|b| - 1];
      assert IssuesOf(a + b, reviewId) == IssuesOf(a + b', reviewId) + tail;
      assert IssuesOf(b, reviewId) == IssuesOf(b', reviewId) + tail;
      IssuesOfAppend(a, b', reviewId);
    }
  }

  /** Number of rows with severity `s`. */
  function CountSeverity(rows: seq<IssueRow>, s: Severity): (r: nat)
    ensures r <= |rows|
  {
    if rows == [] then 0
    else CountSeverity(rows[..|rows| - 1], s) + (if rows[|rows| - 1].severity == s then 1 else 0)
  }

  lemma {:induction false} CountSeverityAppend(a: seq<IssueRow>, b: seq<IssueRow>, s: Severity)
    ensures CountSeverity(a + b, s) == CountSeverity(a, s) + CountSeverity(b, s)
    decreases |b|
  {
    if b == [] {
      assert a + b == a;
    } else {
      var b' := b[..|b| - 1];
      assert (a + b)[..|a + b| - 1] == a + b';
      CountSeverityAppend(a, b', s);
    }
  }

  /** Every row is in exactly one of the three enum buckets. */
  lemma {:induction false} SeverityBucketsCoverRows(rows: seq<IssueRow>)
    ensures CountSeverity(rows, High) + CountSeverity(rows, Medium) + CountSeverity(rows, Low) == |rows|
    decreases |rows|
  {
    if rows != [] {
      SeverityBucketsCoverRows(rows[..|rows| - 1]);
    }
  }
}
