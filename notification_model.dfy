/** The Notification schema (models/Notification.js). */
module NotificationModel {
  import opened Common

  datatype NotificationType = Mention | Follow | Like | CommentType | Delete | Unpublish

  function TypeName(t: NotificationType): string {
    match t
    case Mention => "mention"
    case Follow => "follow"
    case Like => "like"
    case CommentType => "comment"
    case Delete => "delete"
    case Unpublish => "unpublish"
  }

  /** Mongoose's cast of a string to the `type` enum. */
  function ParseType(s: string): (t: Option<NotificationType>)
    ensures t.Some? ==> TypeName(t.value) == s
    ensures forall k :: TypeName(k) == s ==> t == Some(k)
  {
    if s == "mention" then Some(Mention)
    else if s == "follow" then Some(Follow)
    else if s == "like" then Some(Like)
    else if s == "comment" then Some(CommentType)
    else if s == "delete" then Some(Delete)
    else if s == "unpublish" then Some(Unpublish)
    else None
  }

  /** `recipient` and `sender` are required references; `post` is an optional
      reference and `commentId` an optional plain string. */
  datatype Notification = Notification(
    recipient: UserId,
    sender: UserId,
    kind: NotificationType,
    message: string,
    post: Option<PostId>,
    commentId: Option<string>,
    isRead: bool,
    createdAt: int)

  /** Seconds a notification lives after `createdAt`. */
  const NotificationTtl := 86400

  /** A new document: `type` defaults to mention, `message` to "", `isRead`
      to false. */
  function NewNotification(recipient: UserId, sender: UserId, kind: Option<NotificationType>,
                           message: Option<string>, post: Option<PostId>,
                           commentId: Option<string>, now: int): (n: Notification)
    ensures !n.isRead && n.createdAt == now
    ensures n.recipient == recipient && n.sender == sender
    ensures n.kind == (if kind.Some? then kind.value else Mention)
    ensures n.message == (if message.Some? then message.value else "")
    ensures n.post == post && n.commentId == commentId
  {
    Notification(recipient, sender, match kind case Some(k) => k case None => Mention,
                 match message case Some(m) => m case None => "",
                 post, commentId, false, now)
  }

  /** The TTL index purges a notification 86400 s after it was created. */
  predicate NotificationExpired(n: Notification, now: int) {
    now >= n.createdAt + NotificationTtl
  }

  /** Expiry does not depend on whether the notification was read. */
  lemma ExpiryIgnoresReadState(n: Notification, now: int, read: bool)
    ensures NotificationExpired(n.(isRead := read), now) == NotificationExpired(n, now)
  {
  }
}
