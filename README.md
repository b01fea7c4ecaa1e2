# selamy-api blog backend in Dafny

This project models the request handlers and schemas of an Express/Mongoose
blog backend and proves properties about them. The backend has posts with
embedded comments and likes, a notification inbox, user reports that admins
moderate, and user profiles.

Each MongoDB collection is an in-memory map from id to document inside one
store object, `Store.Db`. It holds `users`, `posts`, `notifications` and
`reports`, plus a counter `nextId` that hands out fresh ObjectIds. `Db.Valid()`
is the invariant that every handler keeps:

- every stored document satisfies its schema;
- all ids, comment ids included, are below the counter;
- comment ids are distinct inside a post;
- usernames and emails are unique;
- there is at most one report per (reporter, target) pair.

Each route handler is a method. It takes the store, the acting user's id (what
the JWT middleware puts in `req.user.userID`) and the request fields. A field
that the request may leave out is an `Option`. The method returns the
response's status as a `Code` and states the whole new store in its `ensures`.

When a save fails the schema's validation, Mongoose throws and the handler's
`catch` answers 500. The model returns `ServerError` in that case and writes
nothing.

Modules:

- `Common`: `Option`, ids, status codes and JavaScript truthiness of a string field.
- `JsStrings`: JavaScript `trim` (the same whitespace set) and `split` on one character, with their laws.
- `UserModel`, `PostModel`, `NotificationModel` and `ReportModel`: the schemas in `models/*.js`, one datatype per schema.
  - `UserModel` and `ReportModel` each have a validity predicate, a constructor function holding the defaults, and the enum casts.
  - `NotificationModel` has a constructor function with the defaults and the `type` enum cast. It has no validity predicate, since its routes never write a field that a validator checks.
  - `PostModel` has validity predicates for posts and comments and no constructor function or enum. It also has the document array operations that the post routes use.
  - `UserModel` and `NotificationModel` also state their TTL indexes as expiry predicates.
- `Listing`: `find(filter).sort({createdAt: -1})`. It is a loop that inserts each accepted id in front of the first older one.
- `Store`: the database state and its invariant.
- `Posts`, `Notifications`, `Reports` and `Users`: the handlers of `routes/posts.js`, `routes/notifications.js`, `routes/report.js` and `routes/users.js`.

## Model

| member | source | states |
|---|---|---|
| JsStrings.Trim | models/Post.js:5 | the `trim` setter: the result starts and ends with no JavaScript whitespace and is no longer than the input |
| JsStrings.TrimShape | models/Post.js:5 | trimming removes only whitespace, from the front and from the back, and keeps the middle in order |
| JsStrings.TrimOfTrimmed | models/Post.js:5 | a text that is already trimmed is stored unchanged |
| JsStrings.TrimIdempotent | models/Post.js:5 | trimming twice is the same as trimming once |
| JsStrings.TrimEmptyIffAllSpace | models/Post.js:5 | a text trims to "" (and so fails `required`) exactly when it is all whitespace |
| JsStrings.Lower | models/User.js:9-10 | the `lowercase` setter: the same length, no capital A-Z left, each capital replaced by its small letter and every other character kept; lower-case text is unchanged and trimmed text stays trimmed |
| JsStrings.Split | routes/users.js:25-27 | `split(sep)`: at least one piece, no piece contains the separator, and joining the pieces with the separator gives the input back |
| JsStrings.SplitAround | routes/users.js:25-27 | splitting `a + sep + b` gives the pieces of `a` followed by the pieces of `b` |
| JsStrings.SplitWithoutSep | routes/users.js:25-27 | a text without the separator splits into itself alone |
| JsStrings.SplitJoin | routes/users.js:25-27 | splitting a join of separator-free pieces gives the pieces back |
| UserModel.ParseRole | models/User.js:4-8 | the cast to the `role` enum accepts exactly "user" and "admin", and the role it returns is named by the input |
| UserModel.ValidUser | models/User.js:9-30 | a stored user has a non-empty trimmed lower-case username and email, a non-empty password, a trimmed display name of at most 50 characters, and a bio of at most 140 |
| UserModel.NewUser | models/User.js:4-43 | a new user stores its username and email trimmed and lower-cased; it is valid exactly when both are non-empty once trimmed and a password is given; it has role user, is not verified, has empty picture and bio, no display name and empty reference lists |
| UserModel.NewUserKeepsNormalLogin | models/User.js:9-10 | a username or email that is already trimmed and lower-case is stored as given |
| UserModel.HidePassword | routes/users.js:12 | `select("-password")` keeps every field of the user other than the password |
| UserModel.HidePasswordInjective | routes/users.js:12 | two users give the same projection exactly when they differ at most in their password |
| UserModel.HidePasswordIgnoresPassword | routes/users.js:12 | the projection carries no trace of the password: users differing only in it look the same |
| UserModel.UserExpired | models/User.js:45-48 | an unverified user expires 3600 s after `createdAt`, and a verified one never does |
| UserModel.VerifiedUsersNeverExpire | models/User.js:45-48 | the partial TTL index never purges a verified user |
| UserModel.UserExpiryIsMonotone | models/User.js:45-48 | an unverified user past 3600 s stays expired later |
| NotificationModel.ParseType | models/Notification.js:14-18 | the cast to the `type` enum accepts exactly the six names, and the type it returns is named by the input |
| NotificationModel.NewNotification | models/Notification.js:3-34 | a new notification is unread, `type` defaults to mention and `message` to "", and the given fields are kept |
| NotificationModel.NotificationExpired | models/Notification.js:36 | a notification expires 86400 s after `createdAt` |
| NotificationModel.ExpiryIgnoresReadState | models/Notification.js:36 | the 86400 s TTL does not depend on whether the notification was read |
| ReportModel.ParseTargetType | models/Report.js:13-17 | the cast to `targetType` accepts exactly "Post", "Comment" and "User", and the type it returns is named by the input |
| ReportModel.ValidReport | models/Report.js:23-30 | a stored report has a non-empty reason and, if it has a description, one of at most 300 characters |
| ReportModel.NewReport | models/Report.js:3-36 | a new report is pending and keeps the given fields; it is valid iff the reason is non-empty and the description is at most 300 characters |
| PostModel.ValidComment | models/Post.js:5 | a stored comment's text is non-empty and trimmed |
| PostModel.ValidPost | models/Post.js:15-22 | a stored post has a non-empty title and content, and every comment is valid |
| PostModel.Without | routes/posts.js:202 | `likes.pull(id)` removes every occurrence of `id` and keeps every other member with its count (their order is kept, by `WithoutCons` and `WithoutConcat`), shortens the list by the number of occurrences, and keeps a duplicate-free list duplicate-free |
| PostModel.WithoutCons | routes/posts.js:202 | `pull` drops a leading `id` and keeps any other leading member in front of the pulled rest |
| PostModel.WithoutConcat | routes/posts.js:202 | `pull` keeps the other members in their order: pulling from `a + b` is pulling from `a` followed by pulling from `b` |
| PostModel.Toggle | routes/posts.js:199-208 | the actor's like membership flips; every other user's membership is unchanged; a new like goes at the end |
| PostModel.WithoutAppended | routes/posts.js:202-206 | pulling an id just pushed gives what pulling it from the earlier list gives |
| PostModel.ToggleTwice | routes/posts.js:199-208 | toggling twice restores who likes the post, and restores the list exactly from "not liked" |
| PostModel.ToggleKeepsDistinct | routes/posts.js:199-212 | a toggle keeps `likes` duplicate-free and moves its length, the reported `likesCount`, by exactly one |
| PostModel.FindComment | routes/posts.js:156 | `comments.id(cid)` finds the first comment with that id, or none exactly when no comment has it |
| PostModel.RemoveAt | routes/posts.js:161 | removing one comment shortens the list by one and keeps the others in order |
| PostModel.WithText | routes/posts.js:183 | `comment.text = t` changes that comment's text to `t` and nothing else in the list |
| PostModel.RemoveFoundComment | routes/posts.js:156-161 | with distinct ids, deleting the found comment removes exactly the comment with that id and keeps every other one |
| PostModel.FindAppended | routes/posts.js:140 | a comment pushed with a fresh id is found at the last position |
| PostModel.Pushed | routes/posts.js:140 | `comments.push(c)` puts `c` last and keeps every earlier comment in its place |
| PostModel.AddThenDeleteRestores | routes/posts.js:140-161 | adding a comment and then deleting it by its id restores the comment list |
| PostModel.ApplyUpdate | routes/posts.js:113-115 | a supplied non-empty title or content replaces the old one, no other field changes, and a valid post stays valid |
| PostModel.ApplyUpdateIdempotent | routes/posts.js:113-115 | repeating the same update changes nothing more |
| Store.UniqueLogins | models/User.js:9-10 | the `unique` indexes: no two users share a username or an email |
| Store.OneReportPerPair | routes/report.js:17-22 | the rule the 409 check keeps: no two reports have the same reporter and target |
| Store.ValidState | models/Post.js:4-24 | every stored user, post and report passes its schema (`ValidUser`, `ValidPost`, `ValidReport`), every id is below the id counter, the comment ids inside a post are distinct, and `UniqueLogins` and `OneReportPerPair` hold |
| Listing.InsertNewest | routes/notifications.js:9-12 | inserting an id keeps the list sorted newest first, adds exactly that id and keeps it duplicate-free |
| Listing.ListNewestFirst | routes/notifications.js:9-12 | the result holds exactly the documents that pass the filter, each once, with `createdAt` never increasing |
| Posts.ParsePaging | routes/posts.js:10-12 | page and limit are never 0 and `skip = (page - 1) * limit` |
| Posts.PagingDefaults | routes/posts.js:10-11 | a missing, non-numeric or 0 page or limit becomes 1 or 20; any other value is kept |
| Posts.CeilDiv | routes/posts.js:23 | `Math.ceil(total / limit)` is the least integer `q` at or above `total / limit`: `(q - 1) * limit < total <= q * limit` for a positive limit, `q * limit <= total < (q - 1) * limit` for a negative one |
| Posts.Envelope | routes/posts.js:19-24 | the pagination object echoes page, limit and total; with a positive limit its pages cover all results, with no empty page, and there are 0 pages exactly when there are 0 results |
| Posts.PageOfResult | routes/posts.js:12-23 | with a positive limit, every result lies on exactly one page, `i / limit + 1`, and that page is at most `totalPages` |
| Posts.PlanSearch | routes/posts.js:32-37 | a missing or empty search term stops the search before any read; otherwise the term and paging are kept |
| Posts.SkipNegative | routes/posts.js:12 | the pages whose `skip` is negative: a page below 1 with a positive limit, or above 1 with a negative limit |
| Posts.NegativeSkip | routes/posts.js:12 | `(page - 1) * limit` is negative exactly for the pages `SkipNegative` names |
| Posts.ListStatus | routes/posts.js:8-28 | the list answers 500 exactly when MongoDB refuses its negative `skip` (a page of -1 with the default limit is one), otherwise 200 |
| Posts.SearchStatus | routes/posts.js:31-61 | the search answers 400 exactly when the term is missing or empty; otherwise 500 exactly when MongoDB refuses the term as a pattern or the `skip` is negative; otherwise 200 |
| Posts.GetPost | routes/posts.js:65-68 | 404 exactly for an unknown id, otherwise that post |
| Posts.CreatePost | routes/posts.js:76-85 | a missing or empty title or content fails and nothing is written; otherwise exactly one post by the actor, with no comments or likes, is added under a fresh id |
| Posts.DeletePost | routes/posts.js:93-99 | 404 for an unknown post, 403 and no change for a non-author; otherwise only that post is removed |
| Posts.UpdatePost | routes/posts.js:108-119 | 404, then 403 for a non-author, with no change; otherwise only that post's title and content change, as `ApplyUpdate` says |
| Posts.AddComment | routes/posts.js:128-144 | 400 for a missing or empty text before the lookup, 404 for an unknown post, a failed save for all-whitespace text; otherwise the trimmed comment by the actor is appended last under a fresh id, earlier comments are unchanged, and it is returned |
| Posts.AppendKeepsValid | routes/posts.js:140-141 | appending a valid comment with the next fresh id keeps the store valid |
| Posts.PushComment | routes/posts.js:140-141 | the push and save of a fresh valid comment: the store keeps its invariant and only that post's comments and the id counter change |
| Posts.DeleteComment | routes/posts.js:153-165 | 404 for an unknown post or comment; 403 and no change unless the actor wrote the comment or the post; otherwise exactly that comment is removed and the rest keep their order |
| Posts.RemoveComment | routes/posts.js:161-163 | a comment's removal and the save: the store keeps its invariant and only that post's comment list changes |
| Posts.EditComment | routes/posts.js:174-186 | 404 for an unknown post or comment, 403 and no change unless the actor wrote the comment, a failed save for a missing or all-whitespace text; otherwise only that comment's text changes, to the trimmed text |
| Posts.SetCommentText | routes/posts.js:183-185 | setting a comment's text to a valid text and saving: the store keeps its invariant and only that comment's text changes |
| Posts.SetTextKeepsValid | routes/posts.js:183-185 | a non-empty trimmed text in place of a comment's text keeps the store valid |
| Posts.ToggleLike | routes/posts.js:194-212 | 404 for an unknown post; otherwise "Unliked" or "Liked" as the actor was or was not in `likes`, `likes` becomes the toggled list, `likesCount` is its length, and nothing else changes |
| Notifications.ListNotifications | routes/notifications.js:9-13 | exactly the actor's notifications, each once, newest first |
| Notifications.MarkedRead | routes/notifications.js:28-29 | only that notification changes, and only its `isRead`, which becomes true |
| Notifications.MarkedReadIdempotent | routes/notifications.js:28-29 | marking one notification read twice is the same as once |
| Notifications.MarkRead | routes/notifications.js:21-30 | 404 for an unknown id, 403 and no change unless the actor is the recipient; otherwise only that notification is marked read and returned |
| Notifications.AllReadFor | routes/notifications.js:39-42 | every notification of the actor is read afterwards, differing from before only in `isRead`; other recipients' notifications are unchanged |
| Notifications.AllReadForIdempotent | routes/notifications.js:39-42 | a repeated mark-all-read changes nothing |
| Notifications.MarkAllRead | routes/notifications.js:39-43 | the store changes only as `AllReadFor` says |
| Reports.AddFreshPairKeepsOnePerPair | routes/report.js:17-22 | a report added for a (reporter, target) pair with no report keeps one report per pair |
| Reports.SecondReportBreaksOnePerPair | routes/report.js:17-22 | without the 409 check, a second report for a pair would break one-report-per-pair |
| Reports.SubmitReport | routes/report.js:12-42 | these checks in order: 400 for a missing target, targetType or reason; 409 for an existing (actor, target) report; a failed read of a missing description; 413 for a description over 300 characters; a failed save for an unknown targetType or a sanitized report the schema rejects. Otherwise exactly one pending report by the actor, with the sanitized reason and description, is added, and one report per pair still holds |
| Reports.ListReports | routes/report.js:51-57 | a failed role read for an actor with no account, 403 for a non-admin; an admin gets every report id, each once, newest first |
| Reports.DeleteReport | routes/report.js:68-77 | 404 for an actor with no account, 403 for a non-admin, no change in either case; an admin's request removes only that report id |
| Users.GetUser | routes/users.js:12-16 | 404 for an unknown id, otherwise the user without the password |
| Users.PublicIdFromUrl | routes/users.js:22-34 | no id exactly for a missing or empty url; otherwise the id's two '/'-pieces are the url's next-to-last piece ("undefined" when the url has one piece) and its last piece up to the first '.' |
| Users.IdFromPieces | routes/users.js:26-29 | the id splits at '/' into exactly the next-to-last piece (or "undefined") and the last piece up to its first '.'; so it has one '/' and no '.' after it |
| Users.PublicIdOfHostedUrl | routes/users.js:25-29 | for a url ending in `<folder>/<name>.<format>` the public id is `<folder>/<name>` |
| Users.SetProfile | routes/users.js:45-65 | the `$set` writes only `bio`, the trimmed `displayName` and, when a file came, `profilePicture`; a field left out keeps its value and every other field is unchanged |
| Users.ProfileLimitsNotEnforced | routes/users.js:61-65 | the write as coded can store a 141-character bio or a 51-character display name over a valid user |
| Users.ProfileKeepsUniqueLogins | routes/users.js:45-49 | a profile edit never changes a username or email, so logins stay unique |
| Users.SaveProfile | routes/users.js:61-65 | storing a valid profile with unchanged logins keeps the store valid and changes only that user |
| Users.UpdateProfile | routes/users.js:36-72 | 403 unless the actor edits their own account, then 404 for an unknown user, with no change in either case; the old picture's public id is sent for deletion iff a file came and the old picture is non-empty; a profile breaking the schema's limits is refused and nothing is written; otherwise only that user changes, as `SetProfile` says, and the answer omits the password |

## Left out

- MongoDB itself is not modelled: persistence, `populate`, `countDocuments`, and the slicing that `skip` and `limit` do in the list and search queries. Paging is modelled up to `skip`, its refusal when negative, and the pagination envelope.
- The search's `$regex` matching over title, content and author names is not modelled. The search is modelled up to its missing-term guard, its paging and its answer.
- Whether MongoDB accepts the search term as a regular expression is a parameter `patternValid` of `SearchStatus`; the model does not decide it from the term. An invalid pattern such as "(" makes the queries throw, and the search answers 500.
- A negative `skip` makes MongoDB refuse the list and search queries, and the handler answers 500. `ListStatus` and `SearchStatus` model this. A page of -1 gives a skip of -40.
- Posts.ListStatus: `page`, `limit` and `skip` are unbounded integers here, while in the source they are JavaScript doubles. MongoDB also refuses a skip or limit that is not a 64-bit integer, such as a 19-digit page or the NaN that a 309-digit limit gives (`0 * Infinity`). The source answers 500 for these; the model answers 200. This is left out because floating point is not modelled.
- Posts.SearchStatus: it has the same gap as `ListStatus`. A truthy term with a valid pattern and a skip that is not a 64-bit integer gets 500 in the source and 200 in the model.
- Ids here are natural numbers, so a malformed ObjectId is not modelled. Where the source casts one, the outcome differs by route:
  - a malformed `:id` in a `findById`, or a malformed id in a body, makes the cast throw, and the handler answers 500;
  - a malformed `:commentid` makes `post.comments.id()` return null, and the handler answers 404 (routes/posts.js:157, 178);
  - on `/update/:id` a malformed id differs from the actor's, and the handler answers 403 before any cast (routes/users.js:38-39).
- A request field that is not a string (an object or a number in the JSON body) is not modelled. Body fields are strings or absent.
- sanitize-html and express-mongo-sanitize are foreign libraries. The sanitizer is a parameter `sanitize: string -> string`, and the model assumes nothing about it. express-mongo-sanitize is not modelled.
- Authentication (JWT, bcrypt, the auth middleware) is not modelled. The actor id is an input.
- The image host and the upload middleware are not modelled. `UpdateProfile` returns the public id it asks the image host to delete, and takes the uploaded file's path as an input.
- Email, rate limiting and app wiring are outside the modelled routes.
- Time is a parameter `now`. The TTL purges are stated as predicates over a timestamp (`UserExpired`, `NotificationExpired`), not as a background process.
- `updatedAt` timestamps are not modelled. Each comment's timestamp is only its `createdAt`.
- Concurrency is not modelled. Each handler runs alone, from its read to its save.
- String lengths count Unicode characters, while JavaScript's `.length` counts UTF-16 code units. The two differ only for characters outside the Basic Multilingual Plane.
- `Lower` and `HasNoUpper` stand for the `lowercase` setter. They map and reject only the ASCII capitals A-Z.
- Users.SetProfile: assumes the Mongoose version removes `undefined` keys from `$set`, so a field left out of the body keeps its value. It also assumes the `trim` setter runs on the update.
- These routes and schemas have no slugs, no mention extraction, no draft state, no like or comment counters, and send no notification on a like or a comment. The model has none of them either. Nothing here creates a notification; the inbox routes only read and mark them.
- Logging (`console.log`, `console.error`) is not modelled.

## Findings

| source | as written | input that shows it | evidently intended | confidence | as-written member | corrected member |
|---|---|---|---|---|---|---|
| routes/users.js:61-65 | `findByIdAndUpdate` with `$set` runs no schema validators, so the `maxLength` limits of `bio` (140) and `displayName` (50) are not checked on update | a profile update whose body has a 141-character `bio`, or a 51-character `displayName`, is stored | the profile update enforces the schema's limits (`runValidators: true`) and answers an error without writing | not executed | Users.ProfileLimitsNotEnforced | Users.UpdateProfile |
