/** Validation of a review submission: the rules are checked in a fixed
    order and the message of the first one that fails is returned, or
    nothing (Java's `null`) when all pass. */
module ReviewValidator {
  import opened Wrappers
  import opened JavaText
  import opened WordSplit

  /** The getters of a review request the validator reads; `None` is `null`. */
  datatype ReviewRequest = ReviewRequest(userName: Option<string>, rating: int, comment: Option<string>)

  const UserNameRequired: string := "User name is required"
  const RatingOutOfRange: string := "Rating must be between 1 and 5 stars"
  const CommentRequired: string := "Review comment is required"
  const CommentTooShort: string := "Review must be at least 5 words"

  /** The least number of words a comment needs. */
  const MinWords: nat := 5

  /** The user name is present and has a character `trim()` keeps. */
  ghost predicate NameOk(req: ReviewRequest) {
    req.userName.Some? && !AllTrimmed(req.userName.value)
  }

  /** The rating is one of 1 to 5 stars, both ends included. */
  ghost predicate RatingOk(req: ReviewRequest) {
    1 <= req.rating <= 5
  }

  /** The comment is present and not blank. */
  ghost predicate CommentPresent(req: ReviewRequest) {
    req.comment.Some? && !AllTrimmed(req.comment.value)
  }

  /** The trimmed comment has at least five maximal non-`\s` runs. */
  ghost predicate CommentLongEnough(req: ReviewRequest) {
    req.comment.Some? && Words(Trim(req.comment.value)) >= MinWords
  }

  /** A submission every rule accepts. */
  ghost predicate Acceptable(req: ReviewRequest) {
    NameOk(req) && RatingOk(req) && CommentLongEnough(req)
  }

  /** `checkComment`'s word count: `split("\\s+").length` of the trimmed comment,
      or 0 when it is empty. */
  function WordCount(trimmed: string): (n: nat)
    requires TrimShape(trimmed)
    ensures n == Words(trimmed)
  {
    if trimmed == [] then 0
    else
      assert !IsSpace(trimmed[0]) && !IsSpace(trimmed[|trimmed| - 1]);
      SplitCountsWords(trimmed);
      |SplitOnSpaces(trimmed)|
  }

  /** `checkComment`: a missing or blank comment, then a comment with fewer
      than five words. */
  function CheckComment(req: ReviewRequest): (r: Option<string>)
    ensures !CommentPresent(req) ==> r == Some(CommentRequired)
    ensures CommentPresent(req) && !CommentLongEnough(req) ==> r == Some(CommentTooShort)
    ensures r.None? <==> CommentLongEnough(req)
  {
    if req.comment.None? || IsBlank(req.comment.value) then Some(CommentRequired)
    else
      var comment := Trim(req.comment.value);
      var wordCount := WordCount(comment);
      if wordCount < MinWords then Some(CommentTooShort) else None
  }

  /** `checkRating`: a rating outside 1..5 fails; otherwise the comment rules. */
  function CheckRating(req: ReviewRequest): (r: Option<string>)
    ensures !RatingOk(req) ==> r == Some(RatingOutOfRange)
    ensures RatingOk(req) ==> r == CheckComment(req)
  {
    if req.rating < 1 || req.rating > 5 then Some(RatingOutOfRange) else CheckComment(req)
  }

  /** `confirmUserNameValid`: a missing or blank user name fails; otherwise
      the rating rules. */
  function ConfirmUserNameValid(req: ReviewRequest): (r: Option<string>)
    ensures !NameOk(req) ==> r == Some(UserNameRequired)
    ensures NameOk(req) ==> r == CheckRating(req)
  {
    if req.userName.None? || IsBlank(req.userName.value) then Some(UserNameRequired) else CheckRating(req)
  }

  /** `verifyUserNameLength`: only forwards. */
  function VerifyUserNameLength(req: ReviewRequest): Option<string> {
    ConfirmUserNameValid(req)
  }

  /** `checkUserName`: only forwards. */
  function CheckUserName(req: ReviewRequest): Option<string> {
    VerifyUserNameLength(req)
  }

  /** `validateReview`: no message exactly when every rule holds; otherwise
      the message of the first failing rule, in the order user name, rating,
      comment presence, comment length. The forwarding chain adds nothing. */
  function ValidateReview(req: ReviewRequest): (r: Option<string>)
    ensures r == ConfirmUserNameValid(req)
    ensures r.None? <==> Acceptable(req)
    ensures r.Some? ==> r.value in {UserNameRequired, RatingOutOfRange, CommentRequired, CommentTooShort}
    ensures !NameOk(req) ==> r == Some(UserNameRequired)
    ensures NameOk(req) && !RatingOk(req) ==> r == Some(RatingOutOfRange)
    ensures NameOk(req) && RatingOk(req) && !CommentPresent(req) ==> r == Some(CommentRequired)
    ensures NameOk(req) && RatingOk(req) && CommentPresent(req) && !CommentLongEnough(req)
            ==> r == Some(CommentTooShort)
  {
    CheckUserName(req)
  }

  /** Surrounding the comment with whitespace or control characters does not
      change the outcome of validation. */
  lemma CommentPaddingIrrelevant(req: ReviewRequest, p: string, s: string)
    requires req.comment.Some?
    requires AllTrimmed(p) && AllTrimmed(s)
    ensures ValidateReview(req.(comment := Some(p + req.comment.value + s))) == ValidateReview(req)
  {
    TrimIgnoresPadding(p, req.comment.value, s);
  }
}
