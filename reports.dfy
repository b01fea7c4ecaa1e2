/** The report routes (routes/report.js): report intake with its guards, and
    the admin-only list and delete. The HTML sanitizer is a parameter: the
    model assumes nothing about what it returns. */
module Reports {
  import opened Common
  import opened UserModel
  import opened ReportModel
  import opened Store
  import opened Listing

  /** Adding a report for a pair that has none keeps one report per pair. */
  lemma AddFreshPairKeepsOnePerPair(reports: map<ReportId, Report>, id: ReportId, r: Report)
    requires OneReportPerPair(reports) && id !in reports
    requires !HasReport(reports, r.reporter, r.target)
    ensures OneReportPerPair(reports[id := r])
    ensures HasReport(reports[id := r], r.reporter, r.target)
  {
    var m := reports[id := r];
    forall a, b | a in m && b in m && a != b
      ensures m[a].reporter != m[b].reporter || m[a].target != m[b].target
    {
      if a == id {
        assert b in reports && m[b] == reports[b];
      } else if b == id {
        assert a in reports && m[a] == reports[a];
      }
    }
    assert m[id] == r;
  }

  /** Without the existence check a second report for a pair would break the
      one-per-pair rule: the check is what keeps it. */
  lemma SecondReportBreaksOnePerPair(reports: map<ReportId, Report>, id: ReportId, r: Report)
    requires id !in reports
    requires HasReport(reports, r.reporter, r.target)
    ensures !OneReportPerPair(reports[id := r])
  {
    var old_id :| old_id in reports && reports[old_id].reporter == r.reporter && reports[old_id].target == r.target;
    var m := reports[id := r];
    assert old_id in m && id in m && old_id != id;
    assert m[old_id].reporter == m[id].reporter && m[old_id].target == m[id].target;
  }

  /** POST /: in this order, a missing target, targetType or reason gives 400;
      an existing report by the actor on the target gives 409; a missing
      description fails when its length is read; a description over 300
      characters gives 413; a report the schema rejects (unknown targetType,
      reason empty after sanitizing, sanitized description over 300) fails on
      save; otherwise exactly one report is added, by the actor, with the
      sanitized reason and description and status pending. */
  method SubmitReport(db: Db, actor: UserId, target: Option<ObjectId>, targetType: Option<string>,
                      targetPost: Option<PostId>, reason: Option<string>, description: Option<string>,
                      sanitize: string -> string, now: int)
      returns (code: Code)
    requires db.Valid()
    modifies db
    ensures db.Valid()
    ensures target.None? || !Truthy(targetType) || !Truthy(reason) ==>
              code == BadRequest && db.State() == old(db.State())
    ensures target.Some? && Truthy(targetType) && Truthy(reason) ==>
              if HasReport(old(db.reports), actor, target.value) then
                code == Conflict && db.State() == old(db.State())
              else if description.None? then
                code == ServerError && db.State() == old(db.State())
              else if |description.value| > MaxDescription then
                code == PayloadTooLarge && db.State() == old(db.State())
              else
                var kind := ParseTargetType(targetType.value);
                var r := NewReport(actor, target.value, if kind.Some? then kind.value else PostTarget,
                                   targetPost, sanitize(reason.value), Some(sanitize(description.value)), now);
                if kind.None? || !ValidReport(r) then
                  code == ServerError && db.State() == old(db.State())
                else
                  && code == Created
                  && old(db.nextId) !in old(db.reports)
                  && db.State() == old(db.State()).(reports := old(db.reports)[old(db.nextId) := r],
                                                    nextId := old(db.nextId) + 1)
    ensures code == Created ==> target.Some? && HasReport(db.reports, actor, target.value)
  {
    if target.None? || !Truthy(targetType) || !Truthy(reason) {
      return BadRequest;
    }
    if HasReport(db.reports, actor, target.value) {
      return Conflict;
    }
    if description.None? {
      return ServerError;
    }
    if |description.value| > MaxDescription {
      return PayloadTooLarge;
    }
    var cleanDescription := sanitize(description.value);
    var cleanReason := sanitize(reason.value);
    var kind := ParseTargetType(targetType.value);
    var r := NewReport(actor, target.value, if kind.Some? then kind.value else PostTarget,
                       targetPost, cleanReason, Some(cleanDescription), now);
    if kind.None? || !ValidReport(r) {
      return ServerError;
    }
    AddFreshPairKeepsOnePerPair(db.reports, db.nextId, r);
    db.reports, db.nextId := db.reports[db.nextId := r], db.nextId + 1;
    code := Created;
  }

  function ReportCreatedAt(r: Report): int {
    r.createdAt
  }

  /** GET /: an actor with no account makes the handler read a property of
      null; a non-admin gets 403; an admin gets every report, newest first. */
  method ListReports(db: Db, actor: UserId) returns (code: Code, ids: seq<ReportId>)
    ensures actor !in db.users ==> code == ServerError && ids == []
    ensures actor in db.users && db.users[actor].role != Admin ==> code == Forbidden && ids == []
    ensures actor in db.users && db.users[actor].role == Admin ==>
              && code == OK
              && (forall id :: id in ids <==> id in db.reports)
              && NoDuplicates(ids)
              && SortedNewestFirst(ids, db.reports, ReportCreatedAt)
  {
    if actor !in db.users {
      return ServerError, [];
    }
    if db.users[actor].role != Admin {
      return Forbidden, [];
    }
    ids := ListNewestFirst(db.reports, (r: Report) => true, ReportCreatedAt);
    code := OK;
  }

  /** DELETE /:id: 404 for an actor with no account, 403 for a non-admin; an
      admin's request removes that report, if it exists, and only it. */
  method DeleteReport(db: Db, actor: UserId, id: ReportId) returns (code: Code)
    requires db.Valid()
    modifies db
    ensures db.Valid()
    ensures actor !in old(db.users) ==> code == NotFound && db.State() == old(db.State())
    ensures actor in old(db.users) && old(db.users)[actor].role != Admin ==>
              code == Forbidden && db.State() == old(db.State())
    ensures actor in old(db.users) && old(db.users)[actor].role == Admin ==>
              code == OK && db.State() == old(db.State()).(reports := old(db.reports) - {id})
  {
    if actor !in db.users {
      return NotFound;
    }
    if db.users[actor].role != Admin {
      return Forbidden;
    }
    db.reports := db.reports - {id};
    code := OK;
  }
}
