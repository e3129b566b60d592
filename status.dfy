/** Moderation status codes stored in the `status` column. */
module Status {
  import opened Php

  const Pending := 0
  const Approved := 1
  const Rejected := 2
  const Spam := 3
  const Deleted := 4

  /**
   * `_getStatus`: the API's textual status, compared after `strtolower`, to
   * its code. Every text other than the four known words (including
   * "pending" and the empty text of an absent field) is pending.
   */
  function GetStatus(status: string): (code: int)
    ensures Pending <= code <= Deleted
    ensures code == Approved <==> Lower(status) == "approved"
    ensures code == Rejected <==> Lower(status) == "rejected"
    ensures code == Spam <==> Lower(status) == "spam"
    ensures code == Deleted <==> Lower(status) == "deleted"
  {
    var s := Lower(status);
    if s == "approved" then Approved
    else if s == "rejected" then Rejected
    else if s == "spam" then Spam
    else if s == "deleted" then Deleted
    else Pending
  }

  /** The mapping is case-insensitive: a code is non-pending exactly for a
      case variant of its word, and lowering the input first changes nothing. */
  lemma StatusIgnoresCase(status: string)
    ensures GetStatus(status) == GetStatus(Lower(status))
    ensures GetStatus(status) == Approved <==> EqualsIgnoringCase(status, "approved")
    ensures GetStatus(status) == Rejected <==> EqualsIgnoringCase(status, "rejected")
    ensures GetStatus(status) == Spam <==> EqualsIgnoringCase(status, "spam")
    ensures GetStatus(status) == Deleted <==> EqualsIgnoringCase(status, "deleted")
    ensures GetStatus(status) == Pending <==>
      !EqualsIgnoringCase(status, "approved") && !EqualsIgnoringCase(status, "rejected") &&
      !EqualsIgnoringCase(status, "spam") && !EqualsIgnoringCase(status, "deleted")
  {
    LowerIdempotent(status);
    LowerMatchesWord(status, "approved");
    LowerMatchesWord(status, "rejected");
    LowerMatchesWord(status, "spam");
    LowerMatchesWord(status, "deleted");
  }

  /** Worked cases: upper case is accepted, unknown and empty texts are pending. */
  lemma StatusExamples()
    ensures GetStatus("APPROVED") == Approved
    ensures GetStatus("Spam") == Spam
    ensures GetStatus("pending") == Pending
    ensures GetStatus("bogus") == Pending
    ensures GetStatus("") == Pending
  {
    StatusIgnoresCase("APPROVED");
    UpperApproved();
    StatusIgnoresCase("Spam");
    StatusIgnoresCase("pending");
    assert LowerChar("pending"[0]) != LowerChar("deleted"[0]);
    StatusIgnoresCase("bogus");
  }

  lemma UpperApproved()
    ensures EqualsIgnoringCase("APPROVED", "approved")
  {
    var up, low := "APPROVED", "approved";
    assert LowerChar(up[0]) == low[0] && LowerChar(up[1]) == low[1];
    assert LowerChar(up[2]) == low[2] && LowerChar(up[3]) == low[3];
    assert LowerChar(up[4]) == low[4] && LowerChar(up[5]) == low[5];
    assert LowerChar(up[6]) == low[6] && LowerChar(up[7]) == low[7];
  }
}
