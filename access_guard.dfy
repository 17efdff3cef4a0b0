/** The two checks the single-file handlers run before anything else: does the
    record exist, and does the caller own it. */
module AccessGuard {
  import opened Options
  import opened FileModel

  datatype Decision = Allowed | NotFound | AccessDenied

  /** `if (!file)` answers NotFound; otherwise a record whose owner differs from
      the caller answers AccessDenied. The missing record is decided first, so a
      caller learns nothing about ownership of an id that has no record. There is
      no bypass: nobody but the owner is ever allowed. */
  function Authorize(found: Option<FileRecord>, caller: UserId): (d: Decision)
    ensures d == NotFound <==> found.None?
    ensures d == Allowed <==> found.Some? && found.value.owner == caller
    ensures d == AccessDenied <==> found.Some? && found.value.owner != caller
  {
    if found.None? then NotFound
    else if found.value.owner != caller then AccessDenied
    else Allowed
  }

  /** Two different callers are never both allowed the same record. */
  lemma OwnerIsOnlyAllowed(found: Option<FileRecord>, u1: UserId, u2: UserId)
    requires Authorize(found, u1) == Allowed && Authorize(found, u2) == Allowed
    ensures u1 == u2
  {
  }
}
