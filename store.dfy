/** The MongoDB database as the routes see it: one in-memory map from id to
    document per collection, and a counter that hands out fresh ObjectIds. */
module Store {
  import opened Common
  import opened UserModel
  import opened PostModel
  import opened NotificationModel
  import opened ReportModel

  datatype DbState = DbState(
    users: map<UserId, User>,
    posts: map<PostId, Post>,
    notifications: map<NotificationId, Notification>,
    reports: map<ReportId, Report>,
    nextId: ObjectId)

  /** The unique indexes on `username` and `email`. */
  predicate UniqueLogins(users: map<UserId, User>) {
    forall a, b :: a in users && b in users && a != b ==>
      users[a].username != users[b].username && users[a].email != users[b].email
  }

  predicate HasReport(reports: map<ReportId, Report>, reporter: UserId, target: ObjectId) {
    exists id :: id in reports && reports[id].reporter == reporter && reports[id].target == target
  }

  /** At most one report per (reporter, target) pair. No index enforces this;
      the report route keeps it by looking before it writes. */
  predicate OneReportPerPair(reports: map<ReportId, Report>) {
    forall a, b :: a in reports && b in reports && a != b ==>
      reports[a].reporter != reports[b].reporter || reports[a].target != reports[b].target
  }

  predicate PostIdsBelow(p: Post, bound: ObjectId) {
    forall i :: 0 <= i < |p.comments| ==> p.comments[i].id < bound
  }

  /** What every saved state satisfies: each document passed its schema's
      validation, ids (comment ids included) are below the counter, and comment
      ids are distinct inside each post. */
  predicate ValidState(s: DbState) {
    && (forall id :: id in s.users ==> id < s.nextId && ValidUser(s.users[id]))
    && UniqueLogins(s.users)
    && (forall id :: id in s.posts ==>
          && id < s.nextId && ValidPost(s.posts[id])
          && DistinctCommentIds(s.posts[id].comments)
          && PostIdsBelow(s.posts[id], s.nextId))
    && (forall id :: id in s.notifications ==> id < s.nextId)
    && (forall id :: id in s.reports ==> id < s.nextId && ValidReport(s.reports[id]))
    && OneReportPerPair(s.reports)
  }

  class Db {
    var users: map<UserId, User>
    var posts: map<PostId, Post>
    var notifications: map<NotificationId, Notification>
    var reports: map<ReportId, Report>
    var nextId: ObjectId

    ghost function State(): DbState
      reads this
    {
      DbState(users, posts, notifications, reports, nextId)
    }

    ghost predicate Valid()
      reads this
    {
      ValidState(State())
    }

    /** Writes the `posts` collection and the id counter, as a save does. */
    method SavePosts(posts': map<PostId, Post>, nextId': ObjectId)
      requires ValidState(State().(posts := posts', nextId := nextId'))
      modifies this
      ensures State() == old(State()).(posts := posts', nextId := nextId')
      ensures Valid()
    {
      posts, nextId := posts', nextId';
    }

    /** Writes the `users` collection, as a save does. */
    method SaveUsers(users': map<UserId, User>)
      requires ValidState(State().(users := users'))
      modifies this
      ensures State() == old(State()).(users := users')
      ensures Valid()
    {
      users := users';
    }

    /** An empty database. */
    constructor ()
      ensures Valid()
      ensures State() == DbState(map[], map[], map[], map[], 0)
    {
      users, posts, notifications, reports, nextId := map[], map[], map[], map[], 0;
    }
  }
}
