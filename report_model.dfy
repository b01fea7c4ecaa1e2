/** The Report schema (models/Report.js). */
module ReportModel {
  import opened Common

  datatype TargetType = PostTarget | CommentTarget | UserTarget

  function TargetTypeName(t: TargetType): string {
    match t
    case PostTarget => "Post"
    case CommentTarget => "Comment"
    case UserTarget => "User"
  }

  /** Mongoose's cast of a string to the `targetType` enum. */
  function ParseTargetType(s: string): (t: Option<TargetType>)
    ensures t.Some? ==> TargetTypeName(t.value) == s
    ensures forall k :: TargetTypeName(k) == s ==> t == Some(k)
  {
    if s == "Post" then Some(PostTarget)
    else if s == "Comment" then Some(CommentTarget)
    else if s == "User" then Some(UserTarget)
    else None
  }

  datatype ReportStatus = Pending | Resolved | Dismissed

  /** `reporter`, `target`, `targetType` and `reason` are required;
      `targetPost` and `description` are optional. */
  datatype Report = Report(
    reporter: UserId,
    target: ObjectId,
    targetType: TargetType,
    targetPost: Option<PostId>,
    reason: string,
    description: Option<string>,
    status: ReportStatus,
    createdAt: int)

  const MaxDescription := 300

  predicate ValidReport(r: Report) {
    r.reason != [] && (r.description.Some? ==> |r.description.value| <= MaxDescription)
  }

  /** A new document: `status` defaults to pending. */
  function NewReport(reporter: UserId, target: ObjectId, targetType: TargetType,
                     targetPost: Option<PostId>, reason: string,
                     description: Option<string>, now: int): (r: Report)
    ensures r.status == Pending
    ensures r.reporter == reporter && r.target == target && r.targetType == targetType
    ensures r.reason == reason && r.description == description && r.targetPost == targetPost
    ensures ValidReport(r) <==>
              reason != [] && (description.Some? ==> |description.value| <= MaxDescription)
  {
    Report(reporter, target, targetType, targetPost, reason, description, Pending, now)
  }
}
