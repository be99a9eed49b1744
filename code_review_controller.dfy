/** The review endpoints: `store` (validated submission, new pending row,
    one queued job), `destroy` (delete with cascade), `index` (one user's
    reviews, newest first, 15 per page) and `stats` (counts, sums and the
    five most common issue types). */
module CodeReviewController {
  import opened Wrappers
  import opened Json
  import opened Schema
  import opened ReviewStore
  import opened SubmitCodeRequest
  import opened Ordering

  /** The queue jobs are dispatched to: the reviews they were dispatched
      for, in order. */
  class JobQueue {
    var dispatched: seq<nat>

    constructor ()
      ensures dispatched == []
    {
      dispatched := [];
    }

    /** `AnalyzeCodeJob::dispatch($review)`. */
    method Dispatch(reviewId: nat)
      modifies this
      ensures dispatched == old(dispatched) + [reviewId]
    {
      dispatched := dispatched + [reviewId];
    }
  }

  // ---------------------------------------------------------------------
  // store and destroy

  /** The response of `store`: 201 with the new review, or 422 with the
      validator's messages. */
  datatype StoreResponse = Created(review: Review) | Rejected(errors: seq<FieldError>)

  /** `store`: the submission is validated first; a valid one becomes a
      `pending` review and exactly one job is queued for it; an invalid one
      changes nothing. `now` is the creation time the database stamps. */
  method Store(db: Database, queue: JobQueue, req: Submission, now: int) returns (resp: StoreResponse)
    requires db.Valid()
    modifies db, queue
    ensures db.Valid()
    ensures Accept(req).None? ==>
      && resp == Rejected(Validate(req)) && resp.errors != []
      && db.Snapshot() == old(db.Snapshot()) && queue.dispatched == old(queue.dispatched)
    ensures Accept(req).Some? ==>
      var v := Accept(req).value;
      && resp == Created(PendingReview(old(db.nextReviewId), v.userName, v.filename, v.language, v.code, now))
      && db.Snapshot() == WithNewReview(old(db.Snapshot()), v.userName, v.filename, v.language, v.code, now)
      && queue.dispatched == old(queue.dispatched) + [old(db.nextReviewId)]
  {
    match Accept(req) {
      case None =>
        resp := Rejected(Validate(req));
      case Some(v) =>
        var id := db.CreateReview(v.userName, v.filename, v.language, v.code, now);
        queue.Dispatch(id);
        resp := Created(PendingReview(id, v.userName, v.filename, v.language, v.code, now));
    }
  }

  /** The row `store` adds is the one found under the new key: `pending`,
      no analysis, every counter 0; and the key is fresh. */
  lemma StoredReviewIsPending(t: Tables, userName: string, filename: string, language: string, code: string, now: int)
    requires WellFormed(t)
    ensures var r := WithNewReview(t, userName, filename, language, code, now);
      && !HasReview(t, t.nextReviewId)
      && HasReview(r, t.nextReviewId)
      && var row := r.reviews[ReviewIndex(r.reviews, t.nextReviewId).value];
        && row.status == Pending && row.aiAnalysis.None? && row.totalIssues == 0
        && row.highSeverity == 0 && row.mediumSeverity == 0 && row.lowSeverity == 0
        && row.suggestionsCount == 0 && row.userName == userName && row.originalCode == code
  {
  }

  /** `destroy`: route-model binding answers 404 when the key is unknown;
      otherwise the review is deleted with its issue rows. */
  method Destroy(db: Database, id: nat) returns (found: bool)
    requires db.Valid()
    modifies db
    ensures db.Valid()
    ensures found == HasReview(old(db.Snapshot()), id)
    ensures found ==> db.Snapshot() == WithoutReview(old(db.Snapshot()), id)
    ensures !found ==> db.Snapshot() == old(db.Snapshot())
  {
    found := ReviewIndex(db.reviews, id).Some?;
    if found {
      db.DeleteReview(id);
    }
  }

  /** After a delete the review is gone, none of its issue rows remain,
      and every other review and issue row is still there. */
  lemma DestroyRemovesExactly(t: Tables, id: nat)
    requires WellFormed(t)
    ensures var r := WithoutReview(t, id);
      && WellFormed(r)
      && !HasReview(r, id)
      && IssuesOf(r.issues, id) == []
      && (forall x :: x in r.reviews <==> x in t.reviews && x.id != id)
      && (forall x :: x in r.issues <==> x in t.issues && x.codeReviewId != id)
  {
    var r := WithoutReview(t, id);
    WithoutReviewWellFormed(t, id);
    assert forall k :: 0 <= k < |r.issues| ==> r.issues[k] in r.issues;
    IssuesOfAbsent(r.issues, id);
  }

  // ---------------------------------------------------------------------
  // index

  const PerPage := 15

  /** The stock message of `'user_name' => 'required|string'` in `index`
      and `stats`. */
  const UserNameMissing := FieldError("user_name", [FrameworkDefault("user_name", Required)])

  /** `CodeReview::where('user_name', $name)`, in table order. */
  function UserReviews(reviews: seq<Review>, name: string): (r: seq<Review>)
    ensures |r| <= |reviews|
    ensures forall x :: x in r <==> x in reviews && x.userName == name
  {
    if reviews == [] then []
    else
      var last := reviews[|reviews| - 1];
      UserReviews(reviews[..|reviews| - 1], name) + (if last.userName == name then [last] else [])
  }

  /** `->recent()`: `ORDER BY created_at DESC`. */
  function Newest(reviews: seq<Review>): seq<Review> {
    SortDescending(reviews, CreatedAt)
  }

  function CreatedAt(r: Review): int { r.createdAt }

  /** The page the paginator serves: a `page` below 1 is read as 1. */
  function CurrentPage(page: int): (p: nat)
    ensures p >= 1 && (page >= 1 ==> p == page)
  {
    if page < 1 then 1 else page
  }

  /** `lastPage()`: the number of pages, and 1 when there is nothing. */
  function LastPage(total: nat): (n: nat)
    ensures n >= 1
    ensures (n - 1) * PerPage < total <= n * PerPage || (total == 0 && n == 1)
  {
    if total == 0 then 1 else (total + PerPage - 1) / PerPage
  }

  /** `OFFSET (page - 1) * 15 LIMIT 15`. */
  function Slice<T>(xs: seq<T>, page: nat): (r: seq<T>)
    requires page >= 1
    ensures |r| <= PerPage
    ensures forall j :: 0 <= j < |r| ==> (page - 1) * PerPage + j < |xs| && r[j] == xs[(page - 1) * PerPage + j]
  {
    var start := (page - 1) * PerPage;
    if start >= |xs| then [] else Take(xs[start..], PerPage)
  }

  /** A review as `index` returns it: with its issue rows (`with('issues')`). */
  datatype Listed = Listed(review: Review, issues: seq<IssueRow>)

  datatype Listing = Listing(items: seq<Listed>, currentPage: nat, lastPage: nat, perPage: nat, total: nat)

  /** `index`: the user's reviews, newest first, one page of 15. */
  function Index(t: Tables, userName: FieldValue, page: int): (r: Result<Listing, FieldError>)
    ensures Blank(userName) <==> r.Err?
    ensures r.Err? ==> r.error == UserNameMissing
  {
    if Blank(userName) then Err(UserNameMissing)
    else
      var mine := Newest(UserReviews(t.reviews, userName.s));
      var p := CurrentPage(page);
      var rows := Slice(mine, p);
      Ok(Listing(WithIssues(rows, t.issues), p, LastPage(|mine|), PerPage, |mine|))
  }

  /** `with('issues')`: each review next to its issue rows. */
  function WithIssues(rows: seq<Review>, issues: seq<IssueRow>): (r: seq<Listed>)
    ensures |r| == |rows|
    ensures forall i :: 0 <= i < |r| ==> r[i] == Listed(rows[i], IssuesOf(issues, rows[i].id))
  {
    if rows == [] then [] else [Listed(rows[0], IssuesOf(issues, rows[0].id))] + WithIssues(rows[1..], issues)
  }

  /** What a page holds: at most 15 of the user's own reviews, each with
      its own issue rows, newest first, and exactly the slice of the
      newest-first list that the page number selects. */
  lemma IndexPage(t: Tables, userName: FieldValue, page: int)
    requires !Blank(userName)
    ensures var l := Index(t, userName, page).value;
      var mine := Newest(UserReviews(t.reviews, userName.s));
      && l.total == |UserReviews(t.reviews, userName.s)| && l.perPage == 15
      && |l.items| <= 15
      && (forall i :: 0 <= i < |l.items| ==>
            && l.items[i].review in t.reviews && l.items[i].review.userName == userName.s
            && l.items[i].issues == IssuesOf(t.issues, l.items[i].review.id)
            && l.items[i].review == mine[(CurrentPage(page) - 1) * 15 + i])
      && (forall i, j :: 0 <= i < j < |l.items| ==> l.items[i].review.createdAt >= l.items[j].review.createdAt)
  {
    var mine := Newest(UserReviews(t.reviews, userName.s));
    var l := Index(t, userName, page).value;
    forall i | 0 <= i < |l.items|
      ensures l.items[i].review in t.reviews && l.items[i].review.userName == userName.s
    {
      var x := l.items[i].review;
      assert x in multiset(mine);
      assert x in UserReviews(t.reviews, userName.s);
    }
  }

  /** Every one of the user's reviews appears on exactly one page: the one
      its position in the newest-first list selects. */
  lemma EveryReviewOnItsPage(t: Tables, name: string, k: nat)
    requires !Blank(Text(name)) && k < |UserReviews(t.reviews, name)|
    ensures var l := Index(t, Text(name), k / 15 + 1).value;
      && k / 15 + 1 <= l.lastPage
      && k % 15 < |l.items| && l.items[k % 15].review == Newest(UserReviews(t.reviews, name))[k]
  {
    var mine := Newest(UserReviews(t.reviews, name));
  }

  // ---------------------------------------------------------------------
  // stats

  /** `avg_issues_per_review`: 0 without reviews; otherwise the quotient
      rounded to one decimal, which this model leaves unevaluated. */
  datatype Average = NoReviews | Ratio(issues: nat, reviews: nat)

  datatype Stats = Stats(
    totalReviews: nat,
    totalIssues: nat,
    average: Average,
    high: nat,
    medium: nat,
    low: nat,
    commonIssues: seq<(Json, nat)>)

  /** `SUM(column)` over some reviews. */
  function SumOf(reviews: seq<Review>, column: Review -> nat): (r: nat)
    ensures reviews == [] ==> r == 0
    ensures forall i :: 0 <= i < |reviews| ==> column(reviews[i]) <= r
  {
    if reviews == [] then 0
    else SumOf(reviews[..|reviews| - 1], column) + column(reviews[|reviews| - 1])
  }

  function TotalIssuesColumn(r: Review): nat { r.totalIssues }
  function HighColumn(r: Review): nat { r.highSeverity }
  function MediumColumn(r: Review): nat { r.mediumSeverity }
  function LowColumn(r: Review): nat { r.lowSeverity }

  /** The `selectRaw(SUM ...)->first()` row: its sums are `NULL` when
      there are no rows, which `?? 0` reads as 0. */
  function SeveritySums(reviews: seq<Review>): Option<(nat, nat, nat)> {
    if reviews == [] then None
    else Some((SumOf(reviews, HighColumn), SumOf(reviews, MediumColumn), SumOf(reviews, LowColumn)))
  }

  /** Whether an issue row joins with a review of user `name`. */
  predicate OwnedBy(reviews: seq<Review>, row: IssueRow, name: string) {
    match ReviewIndex(reviews, row.codeReviewId)
    case None => false
    case Some(i) => reviews[i].userName == name
  }

  /** The join of `code_issues` with `code_reviews` on the key, restricted
      to the user's reviews. */
  function UserIssueRows(reviews: seq<Review>, issues: seq<IssueRow>, name: string): (r: seq<IssueRow>)
    ensures |r| <= |issues|
    ensures forall x :: x in r <==> x in issues && OwnedBy(reviews, x, name)
  {
    if issues == [] then []
    else
      var last := issues[|issues| - 1];
      UserIssueRows(reviews, issues[..|issues| - 1], name) + (if OwnedBy(reviews, last, name) then [last] else [])
  }

  /** `count(*)` of the rows of one type. */
  function CountType(rows: seq<IssueRow>, ty: Json): (r: nat)
    ensures r <= |rows|
    ensures r > 0 <==> exists i :: 0 <= i < |rows| && rows[i].issueType == ty
  {
    if rows == [] then 0
    else
      var front := rows[..|rows| - 1];
      var r := CountType(front, ty) + (if rows[|rows| - 1].issueType == ty then 1 else 0);
      assert (exists i :: 0 <= i < |front| && front[i].issueType == ty) ==>
        exists i :: 0 <= i < |rows| && rows[i].issueType == ty by {
        if exists i :: 0 <= i < |front| && front[i].issueType == ty {
          var i :| 0 <= i < |front| && front[i].issueType == ty;
          assert rows[i] == front[i];
        }
      }
      r
  }

  /** The distinct types among the rows, in order of first appearance. */
  function Types(rows: seq<IssueRow>): (r: seq<Json>)
    ensures forall ty :: ty in r <==> CountType(rows, ty) > 0
    ensures Distinct(r)
  {
    if rows == [] then []
    else
      var front := rows[..|rows| - 1];
      var ty := rows[|rows| - 1].issueType;
      var p := Types(front);
      assert forall u :: CountType(rows, u) > 0 <==> CountType(front, u) > 0 || u == ty;
      if ty in p then p else p + [ty]
  }

  /** `GROUP BY type` with `count(*)`: one group per type. */
  function Groups(rows: seq<IssueRow>): (r: seq<(Json, nat)>)
    ensures forall g: (Json, nat) :: g in r <==> g.1 == CountType(rows, g.0) && g.1 > 0
    ensures forall i, j :: 0 <= i < j < |r| ==> r[i].0 != r[j].0
  {
    var ts := Types(rows);
    var r := Counted(ts, rows);
    assert forall g: (Json, nat) :: g.1 == CountType(rows, g.0) && g.1 > 0 ==> g in r by {
      forall g: (Json, nat) | g.1 == CountType(rows, g.0) && g.1 > 0 ensures g in r {
        var i :| 0 <= i < |ts| && ts[i] == g.0;
        assert r[i] == g;
      }
    }
    r
  }

  /** Each type with the count of its rows. */
  function Counted(types: seq<Json>, rows: seq<IssueRow>): (r: seq<(Json, nat)>)
    ensures |r| == |types| && forall i :: 0 <= i < |r| ==> r[i] == (types[i], CountType(rows, types[i]))
  {
    if types == [] then [] else [(types[0], CountType(rows, types[0]))] + Counted(types[1..], rows)
  }

  function GroupCount(g: (Json, nat)): int { g.1 }

  /** `ORDER BY count DESC LIMIT 5`. */
  function CommonIssues(rows: seq<IssueRow>): seq<(Json, nat)> {
    Take(SortDescending(Groups(rows), GroupCount), 5)
  }

  /** `stats`: the user's review count, the sum of their `total_issues`,
      the average (0 without reviews), the sums of the three severity
      counters, and the five most common issue types. */
  function ReviewStats(t: Tables, userName: FieldValue): (r: Result<Stats, FieldError>)
    ensures Blank(userName) <==> r.Err?
    ensures r.Err? ==> r.error == UserNameMissing
  {
    if Blank(userName) then Err(UserNameMissing)
    else
      var mine := UserReviews(t.reviews, userName.s);
      var total := SumOf(mine, TotalIssuesColumn);
      var sums := SeveritySums(mine);
      Ok(Stats(|mine|, total, if |mine| > 0 then Ratio(total, |mine|) else NoReviews,
               if sums.Some? then sums.value.0 else 0,
               if sums.Some? then sums.value.1 else 0,
               if sums.Some? then sums.value.2 else 0,
               CommonIssues(UserIssueRows(t.reviews, t.issues, userName.s))))
  }

  /** The figures of `stats`: the number of the user's reviews, the sums of
      their counters (0 for each when there are none), and the average's
      zero case. */
  lemma StatsFigures(t: Tables, name: string)
    requires !Blank(Text(name))
    ensures var s := ReviewStats(t, Text(name)).value;
      var mine := UserReviews(t.reviews, name);
      && s.totalReviews == |mine| && (forall r :: r in mine <==> r in t.reviews && r.userName == name)
      && s.totalIssues == SumOf(mine, TotalIssuesColumn)
      && (s.average == NoReviews <==> s.totalReviews == 0)
      && s.high == SumOf(mine, HighColumn) && s.medium == SumOf(mine, MediumColumn)
      && s.low == SumOf(mine, LowColumn)
      && (s.totalReviews == 0 ==> s.totalIssues == s.high == s.medium == s.low == 0)
  {
  }

  /** Per-review counters that add up give sums that add up. */
  lemma {:induction false} SeveritySumsAddUp(reviews: seq<Review>)
    requires forall r :: r in reviews ==> r.highSeverity + r.mediumSeverity + r.lowSeverity == r.totalIssues
    ensures SumOf(reviews, HighColumn) + SumOf(reviews, MediumColumn) + SumOf(reviews, LowColumn)
      == SumOf(reviews, TotalIssuesColumn)
    decreases |reviews|
  {
    if reviews != [] {
      var front := reviews[..|reviews| - 1];
      assert forall r :: r in front ==> r in reviews;
      SeveritySumsAddUp(front);
      assert reviews[|reviews| - 1] in reviews;
    }
  }

  /** When each of the user's reviews has counters that add up, as every
      completed analysis does, the severity totals of `stats` add up to
      its issue total. */
  lemma StatsSeveritiesAddUp(t: Tables, name: string)
    requires !Blank(Text(name))
    requires forall r :: r in t.reviews && r.userName == name ==>
      r.highSeverity + r.mediumSeverity + r.lowSeverity == r.totalIssues
    ensures var s := ReviewStats(t, Text(name)).value;
      s.high + s.medium + s.low == s.totalIssues
  {
    SeveritySumsAddUp(UserReviews(t.reviews, name));
  }

  /** `common_issues`: at most five groups, by non-increasing count, each
      type listed once with the count of its rows; and a type left out has
      no more rows than any listed one (so five are listed). */
  lemma CommonIssuesTop(rows: seq<IssueRow>)
    ensures var r := CommonIssues(rows);
      && |r| <= 5
      && (forall i, j :: 0 <= i < j < |r| ==> r[i].1 >= r[j].1)
      && (forall i, j :: 0 <= i < j < |r| ==> r[i].0 != r[j].0)
      && (forall g :: g in r ==> g.1 == CountType(rows, g.0) && g.1 > 0)
      && (forall ty :: CountType(rows, ty) > 0 && (forall g :: g in r ==> g.0 != ty) ==>
            |r| == 5 && forall g :: g in r ==> g.1 >= CountType(rows, ty))
  {
    var sorted := SortDescending(Groups(rows), GroupCount);
    var r := CommonIssues(rows);
    TakeDescending(sorted, 5, GroupCount);
    CommonIssuesAreGroups(rows);
    CommonIssuesDistinct(rows);
    forall ty | CountType(rows, ty) > 0 && (forall g :: g in r ==> g.0 != ty)
      ensures |r| == 5 && forall g :: g in r ==> g.1 >= CountType(rows, ty)
    {
      CommonIssuesCutOff(rows, ty);
    }
  }

  /** A type with rows that is not listed ranks no higher than any listed
      type, which happens only when five are listed. */
  lemma CommonIssuesCutOff(rows: seq<IssueRow>, ty: Json)
    requires CountType(rows, ty) > 0 && forall g :: g in CommonIssues(rows) ==> g.0 != ty
    ensures |CommonIssues(rows)| == 5
    ensures forall g :: g in CommonIssues(rows) ==> g.1 >= CountType(rows, ty)
  {
    var sorted := SortDescending(Groups(rows), GroupCount);
    var x := (ty, CountType(rows, ty));
    assert x in multiset(Groups(rows));
    assert x in sorted;
    CutOffRanksLower(sorted, 5, GroupCount, x);
  }

  /** Each listed group is the count of the rows of its type. */
  lemma CommonIssuesAreGroups(rows: seq<IssueRow>)
    ensures forall g :: g in CommonIssues(rows) ==> g.1 == CountType(rows, g.0) && g.1 > 0
  {
    var sorted := SortDescending(Groups(rows), GroupCount);
    forall g | g in CommonIssues(rows) ensures g.1 == CountType(rows, g.0) && g.1 > 0 {
      assert g in sorted;
      assert g in multiset(sorted);
    }
  }

  /** No type is listed twice: the groups have distinct types, reordering
      and `LIMIT` keep the groups distinct, and a group's count is fixed by
      its type. */
  lemma CommonIssuesDistinct(rows: seq<IssueRow>)
    ensures var r := CommonIssues(rows);
      forall i, j :: 0 <= i < j < |r| ==> r[i].0 != r[j].0
  {
    var groups := Groups(rows);
    var sorted := SortDescending(groups, GroupCount);
    var r := CommonIssues(rows);
    assert Distinct(groups);
    PermutationKeepsDistinct(groups, sorted);
    CommonIssuesAreGroups(rows);
    forall i, j | 0 <= i < j < |r| ensures r[i].0 != r[j].0 {
      assert r[i] == sorted[i] && r[j] == sorted[j];
      assert r[i] in r && r[j] in r;
    }
  }
}
