/**
 * Comment deletion through the manager. `delete_comment(job_id, comment_id)`
 * validates the comment at position `comment_id - 1` (comments numbered
 * from 1) but then asks the job to delete position `comment_id`, and ignores
 * the job's answer. `DeleteAsWritten` follows the code; the lemmas below show
 * where it departs from deleting the comment that was validated, and
 * `DeleteByNumber` is the deletion the validation step evidently intends.
 */
module CommentDeletion {
  import opened PyText
  import opened JobsRecords

  /** `str(e)` of the IndexError raised by `lst[i]` out of range. */
  const ListIndexOutOfRange := "list index out of range"
  const InvalidCommentNumber := "#-2 INVALID COMMENT ID"

  /**
   * The reply and the remaining comments, as the manager's code computes
   * them: any number whose read succeeds reports success, whether or not a
   * comment went, and at most one comment goes.
   */
  function DeleteAsWritten(cs: seq<Comment>, commentId: int): (r: (Reply, seq<Comment>))
    ensures r.0 == Ok <==> 1 - |cs| <= commentId <= |cs|
    ensures r.0 != Ok ==> r == (Fail(ListIndexOutOfRange), cs)
    ensures r.0 == Ok ==> r.1 == cs || |r.1| == |cs| - 1
  {
    match PyIndex(commentId - 1, |cs|)
    case None => (Fail(ListIndexOutOfRange), cs)
    case Some(_) => (Ok, PositionalDelete(cs, commentId).1)
  }

  /** Numbers outside `1 - |cs| .. |cs|` fail the read with an IndexError and change nothing. */
  lemma AsWrittenRefusesOutOfRange(cs: seq<Comment>, commentId: int)
    requires commentId > |cs| || commentId < 1 - |cs|
    ensures DeleteAsWritten(cs, commentId) == (Fail(ListIndexOutOfRange), cs)
  {
  }

  /** Deleting the last comment by its number reports success and deletes nothing. */
  lemma AsWrittenKeepsLastComment(cs: seq<Comment>)
    requires |cs| >= 1
    ensures DeleteAsWritten(cs, |cs|) == (Ok, cs)
  {
  }

  /** Any other number from 1 on deletes the comment AFTER the one validated. */
  lemma AsWrittenDeletesNextComment(cs: seq<Comment>, n: int)
    requires 1 <= n < |cs|
    ensures DeleteAsWritten(cs, n) == (Ok, RemoveAt(cs, n))
  {
  }

  /**
   * Numbers from `1 - |cs|` to 0 are read with Python's wrap-around: the
   * comment validated is the one at `|cs| + n - 1` counted from the start,
   * but the one deleted is the next one, which for number 0 wraps back to
   * the first comment.
   */
  lemma AsWrittenWrapsAround(cs: seq<Comment>, n: int)
    requires 1 - |cs| <= n <= 0
    ensures DeleteAsWritten(cs, n) == (Ok, RemoveAt(cs, if n == 0 then 0 else |cs| + n))
  {
  }

  /** The seed comment alone cannot be deleted, although the call succeeds. */
  lemma SeedCommentSurvives(c: Comment)
    ensures DeleteAsWritten([c], 1) == (Ok, [c])
  {
    AsWrittenKeepsLastComment([c]);
  }

  /**
   * Deletion by comment number as the validation step intends: numbers
   * 1 .. |cs| remove exactly the comment at position number - 1; any other
   * number is refused with the manager's comment-id error and changes nothing.
   */
  function DeleteByNumber(cs: seq<Comment>, commentId: int): (r: (Reply, seq<Comment>))
    ensures r.0 == Ok <==> 1 <= commentId <= |cs|
    ensures r.0 != Ok ==> r == (Fail(InvalidCommentNumber), cs)
    ensures r.0 == Ok ==>
      |r.1| == |cs| - 1 &&
      multiset(r.1) + multiset{cs[commentId - 1]} == multiset(cs) &&
      (forall i :: 0 <= i < commentId - 1 ==> r.1[i] == cs[i]) &&
      (forall i :: commentId - 1 <= i < |r.1| ==> r.1[i] == cs[i + 1])
  {
    if 1 <= commentId <= |cs| then (Ok, RemoveAt(cs, commentId - 1))
    else (Fail(InvalidCommentNumber), cs)
  }

  /**
   * On the last comment's number the corrected deletion removes that
   * comment, where the code as written reports success and keeps it.
   */
  lemma CorrectedKeepsLastCommentDeletable(cs: seq<Comment>)
    requires |cs| >= 1
    ensures DeleteByNumber(cs, |cs|) == (Ok, cs[..|cs| - 1])
    ensures DeleteAsWritten(cs, |cs|).1 == cs
  {
    AsWrittenKeepsLastComment(cs);
    assert RemoveAt(cs, |cs| - 1) == cs[..|cs| - 1];
  }
}
