/** Types shared by every part of the blog backend model: optional values,
    document ids and the HTTP outcomes the route handlers answer with. */
module Common {

  datatype Option<+T> = None | Some(value: T)

  /** A MongoDB ObjectId. Fresh ids come from a counter kept by the store. */
  type ObjectId = nat
  type UserId = ObjectId
  type PostId = ObjectId
  type CommentId = ObjectId
  type NotificationId = ObjectId
  type ReportId = ObjectId

  /** The outcome a handler answers with. `ServerError` stands for the catch
      block of every handler; in this model it is reached when Mongoose
      would reject a document at save time, a property of a missing record
      is read, or MongoDB refuses a query (a negative `skip`, an invalid
      search pattern). */
  datatype Code =
    | OK | Created | BadRequest | Forbidden | NotFound | Conflict
    | PayloadTooLarge | ServerError

  predicate NoDuplicates<T(==)>(s: seq<T>) {
    forall i, j :: 0 <= i < j < |s| ==> s[i] != s[j]
  }

  /** A request field that JavaScript treats as truthy: present and not "". */
  predicate Truthy(field: Option<string>) {
    field.Some? && field.value != ""
  }
}
