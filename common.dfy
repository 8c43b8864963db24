/** Values shared by every controller: optional values, the caller taken from
    the verified token, and the uniform "creator or admin" permission rule. */
module Common {

  datatype Option<+T> = None | Some(value: T)

  /** The role string that the controllers treat as elevated. */
  const AdminRole: string := "admin"

  /** `req.user` as set by the authentication middleware: the decoded token. */
  datatype Caller = Caller(id: int, role: string)

  predicate IsAdmin(caller: Caller) {
    caller.role == AdminRole
  }

  /** A nullable number (column, body field or id) is truthy in JavaScript when it
      is present and not 0. */
  predicate IntTruthy(x: Option<int>) {
    x.Some? && x.value != 0
  }

  /** A text field is truthy when it is present and not empty. */
  predicate TextTruthy(s: Option<string>) {
    s.Some? && s.value != ""
  }

  /** The update/delete guard used by every controller:
      `existing.created_by !== req.user.id && req.user.role !== 'admin'` rejects.
      `createdBy` is `None` when the owning user was deleted (the column is
      `on delete set null`), which only an admin can then pass. */
  predicate CanModify(createdBy: Option<int>, caller: Caller)
  {
    createdBy == Some(caller.id) || IsAdmin(caller)
  }

  /** Outcome of the fetch-then-check prologue of every update and delete. */
  datatype Guard = NotFound | Forbidden | Permitted

  /** `owner` is `None` when the fetch failed or found no row (404), and
      otherwise the row's creator column; the caller passes only as the
      creator or an admin (403 otherwise). */
  function OwnerGuard(owner: Option<Option<int>>, caller: Caller): (g: Guard)
    ensures g == NotFound <==> owner.None?
    ensures g == Permitted <==> owner.Some? && (owner.value == Some(caller.id) || caller.role == "admin")
    ensures g == Forbidden <==> owner.Some? && owner.value != Some(caller.id) && caller.role != "admin"
  {
    if owner.None? then NotFound
    else if !CanModify(owner.value, caller) then Forbidden
    else Permitted
  }

  lemma AppendAssociates<T>(a: seq<T>, b: seq<T>, c: seq<T>)
    ensures (a + b) + c == a + (b + c)
  {
  }
}
