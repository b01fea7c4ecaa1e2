/** The notification inbox routes (routes/notifications.js): list the actor's
    notifications, mark one read, mark all read. */
module Notifications {
  import opened Common
  import opened NotificationModel
  import opened Store
  import opened Listing

  function CreatedAt(n: Notification): int {
    n.createdAt
  }

  /** GET /: the ids of exactly the actor's notifications, each once, newest
      first. */
  method ListNotifications(db: Db, actor: UserId) returns (code: Code, ids: seq<NotificationId>)
    ensures code == OK
    ensures forall id :: id in ids <==> id in db.notifications && db.notifications[id].recipient == actor
    ensures NoDuplicates(ids)
    ensures SortedNewestFirst(ids, db.notifications, CreatedAt)
  {
    ids := ListNewestFirst(db.notifications, (n: Notification) => n.recipient == actor, CreatedAt);
    code := OK;
  }

  /** The collection after one notification's `isRead` is set. */
  function MarkedRead(m: map<NotificationId, Notification>, id: NotificationId): (r: map<NotificationId, Notification>)
    requires id in m
    ensures r.Keys == m.Keys
    ensures r[id].isRead && r[id].(isRead := m[id].isRead) == m[id]
    ensures forall other :: other in m && other != id ==> r[other] == m[other]
  {
    m[id := m[id].(isRead := true)]
  }

  lemma MarkedReadIdempotent(m: map<NotificationId, Notification>, id: NotificationId)
    requires id in m
    ensures MarkedRead(MarkedRead(m, id), id) == MarkedRead(m, id)
  {
  }

  /** PUT /:id/read: only the recipient may mark a notification read. */
  method MarkRead(db: Db, actor: UserId, id: NotificationId) returns (code: Code, n: Option<Notification>)
    requires db.Valid()
    modifies db
    ensures db.Valid()
    ensures id !in old(db.notifications) ==> code == NotFound && n.None? && db.State() == old(db.State())
    ensures id in old(db.notifications) && old(db.notifications)[id].recipient != actor ==>
              code == Forbidden && n.None? && db.State() == old(db.State())
    ensures id in old(db.notifications) && old(db.notifications)[id].recipient == actor ==>
              && code == OK
              && db.State() == old(db.State()).(notifications := MarkedRead(old(db.notifications), id))
              && n == Some(db.notifications[id])
  {
    if id !in db.notifications {
      return NotFound, None;
    }
    if db.notifications[id].recipient != actor {
      return Forbidden, None;
    }
    db.notifications := MarkedRead(db.notifications, id);
    code, n := OK, Some(db.notifications[id]);
  }

  /** `updateMany({recipient: actor, isRead: false}, {$set: {isRead: true}})`. */
  function AllReadFor(m: map<NotificationId, Notification>, actor: UserId): (r: map<NotificationId, Notification>)
    ensures r.Keys == m.Keys
    ensures forall id :: id in m && m[id].recipient == actor ==>
              r[id].isRead && r[id].(isRead := m[id].isRead) == m[id]
    ensures forall id :: id in m && m[id].recipient != actor ==> r[id] == m[id]
  {
    map id | id in m :: if m[id].recipient == actor && !m[id].isRead then m[id].(isRead := true) else m[id]
  }

  /** A second mark-all-read changes nothing. */
  lemma AllReadForIdempotent(m: map<NotificationId, Notification>, actor: UserId)
    ensures AllReadFor(AllReadFor(m, actor), actor) == AllReadFor(m, actor)
  {
    var r := AllReadFor(m, actor);
    var rr := AllReadFor(r, actor);
    assert forall id :: id in r ==> rr[id] == r[id];
  }

  /** PUT /mark-all-read: every notification of the actor is read afterwards;
      no other recipient's notification changes. */
  method MarkAllRead(db: Db, actor: UserId) returns (code: Code)
    requires db.Valid()
    modifies db
    ensures db.Valid()
    ensures code == OK
    ensures db.State() == old(db.State()).(notifications := AllReadFor(old(db.notifications), actor))
  {
    db.notifications := AllReadFor(db.notifications, actor);
    code := OK;
  }
}
