/** The database the controller and the job share: the two tables as a
    class whose methods are the row operations the backend performs
    (`create`, `update`, `delete` with its cascade), and a transaction as a
    snapshot that a rollback restores. */
module ReviewStore {
  import opened Wrappers
  import opened Json
  import opened Schema

  /** The row `CodeReview::create` stores: the submitted fields, status
      `pending`, no analysis, and every counter at its default of 0. */
  function PendingReview(id: nat, userName: string, filename: string, language: string,
                         code: string, now: int): (r: Review)
    ensures r.status == Pending && r.aiAnalysis.None?
    ensures r.totalIssues == r.highSeverity == r.mediumSeverity == r.lowSeverity == r.suggestionsCount == 0
  {
    Review(id, userName, filename, language, code, None, 0, 0, 0, 0, 0, Pending, now)
  }

  /** The tables after inserting a new review row. */
  function WithNewReview(t: Tables, userName: string, filename: string, language: string,
                         code: string, now: int): Tables
  {
    t.(reviews := t.reviews + [PendingReview(t.nextReviewId, userName, filename, language, code, now)],
       nextReviewId := t.nextReviewId + 1)
  }

  /** The tables after inserting `row` under the next issue key. */
  function WithNewIssue(t: Tables, row: IssueRow): Tables {
    t.(issues := t.issues + [row.(id := t.nextIssueId)], nextIssueId := t.nextIssueId + 1)
  }

  /** The tables after `$review->delete()`: the row goes, and with it
      every issue row that references it (`onDelete('cascade')`). */
  function WithoutReview(t: Tables, id: nat): Tables {
    t.(reviews := ReviewsWithout(t.reviews, id), issues := IssuesNotOf(t.issues, id))
  }

  /** Every issue row the cascade keeps still finds its review. */
  lemma CascadeKeepsForeignKey(reviews: seq<Review>, issues: seq<IssueRow>, id: nat)
    requires ForeignKeys(reviews, issues)
    ensures ForeignKeys(ReviewsWithout(reviews, id), IssuesNotOf(issues, id))
  {
    var rs, kept := ReviewsWithout(reviews, id), IssuesNotOf(issues, id);
    forall k | 0 <= k < |kept| ensures kept[k].codeReviewId in ReviewIds(rs) {
      var x := kept[k];
      assert x in kept;
      var i :| 0 <= i < |issues| && issues[i] == x;
      var j :| 0 <= j < |reviews| && reviews[j].id == x.codeReviewId;
      assert reviews[j] in rs;
      var m :| 0 <= m < |rs| && rs[m] == reviews[j];
    }
  }

  /** The cascade leaves no issue row without its review. */
  lemma WithoutReviewWellFormed(t: Tables, id: nat)
    requires WellFormed(t)
    ensures WellFormed(WithoutReview(t, id))
  {
    ReviewsWithoutOrdered(t.reviews, id, t.nextReviewId);
    IssuesNotOfOrdered(t.issues, id, t.nextIssueId);
    CascadeKeepsForeignKey(t.reviews, t.issues, id);
  }

  class Database {
    var reviews: seq<Review>
    var issues: seq<IssueRow>
    var nextReviewId: nat
    var nextIssueId: nat

    function Snapshot(): Tables
      reads this
    {
      Tables(reviews, issues, nextReviewId, nextIssueId)
    }

    ghost predicate Valid()
      reads this
    {
      WellFormed(Snapshot())
    }

    constructor ()
      ensures Valid() && Snapshot() == Tables([], [], 1, 1)
    {
      reviews, issues := [], [];
      nextReviewId, nextIssueId := 1, 1;
    }

    /** `CodeReview::create([...])`. */
    method CreateReview(userName: string, filename: string, language: string, code: string, now: int)
      returns (id: nat)
      requires Valid()
      modifies this
      ensures Valid()
      ensures id == old(nextReviewId)
      ensures Snapshot() == WithNewReview(old(Snapshot()), userName, filename, language, code, now)
    {
      id := nextReviewId;
      reviews := reviews + [PendingReview(id, userName, filename, language, code, now)];
      nextReviewId := nextReviewId + 1;
      assert forall k :: 0 <= k < |issues| ==> issues[k].codeReviewId in ReviewIds(reviews) by {
        forall k | 0 <= k < |issues| ensures issues[k].codeReviewId in ReviewIds(reviews) {
          var j :| 0 <= j < |old(reviews)| && old(reviews)[j].id == issues[k].codeReviewId;
          assert reviews[j] == old(reviews)[j];
        }
      }
    }

    /** `$review->update([...])`: the row at position `i` is written back
        with new column values; its key stays. */
    method UpdateReview(i: nat, r: Review)
      requires Valid() && i < |reviews| && r.id == reviews[i].id
      modifies this
      ensures Valid()
      ensures Snapshot() == old(Snapshot()).(reviews := old(reviews)[i := r])
    {
      reviews := reviews[i := r];
      SameIdsSameKeySet(old(reviews), reviews);
    }

    /** `CodeIssue::create([...])`: `row` is stored under the next key; its
        review must exist (the foreign key). */
    method CreateIssue(row: IssueRow) returns (id: nat)
      requires Valid() && HasReview(Snapshot(), row.codeReviewId)
      modifies this
      ensures Valid()
      ensures id == old(nextIssueId)
      ensures Snapshot() == WithNewIssue(old(Snapshot()), row)
    {
      HasReviewIffId(Snapshot(), row.codeReviewId);
      id := nextIssueId;
      issues := issues + [row.(id := id)];
      nextIssueId := nextIssueId + 1;
    }

    /** `$review->delete()` with the cascade of `code_issues`. */
    method DeleteReview(id: nat)
      requires Valid()
      modifies this
      ensures Valid()
      ensures Snapshot() == WithoutReview(old(Snapshot()), id)
    {
      WithoutReviewWellFormed(Snapshot(), id);
      reviews, issues := ReviewsWithout(reviews, id), IssuesNotOf(issues, id);
    }

    /** A rollback: the tables return to the snapshot taken when the
        transaction began. */
    method Restore(t: Tables)
      requires WellFormed(t)
      modifies this
      ensures Valid() && Snapshot() == t
    {
      reviews, issues, nextReviewId, nextIssueId := t.reviews, t.issues, t.nextReviewId, t.nextIssueId;
    }
  }
}
